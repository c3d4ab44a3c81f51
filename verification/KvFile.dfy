/** The conversation file of c/glm.c: records appended data first, counter after, so that a crash
    or a failed write never shows a reader anything but a prefix of the history. A record is the
    token and KV rows of one position, w values written one by one. */
module KvFile {

  type Record = seq<int>
  type History = seq<Record>

  // The file: whether it exists, whether its magic and its shape words are those of this model, its
  // record counter, and its records, of which the last may be incomplete.
  datatype Disk = Disk(present: bool, magic: bool, shape: bool, count: int, data: seq<Record>)

  const NO_FILE := Disk(false, false, false, 0, [])

  // What becomes of one write: it lands, it fails (having landed or not), or the process stops
  // before it.
  datatype Fate = Lands | Fails(landed: bool) | Stops

  predicate Readable(d: Disk) {
    d.present && d.magic && d.shape
  }

  // The complete records at the front of the file, at most count of them.
  function Whole(data: seq<Record>, w: nat, count: int): (r: seq<Record>)
    ensures r <= data && (count >= 0 ==> |r| <= count)
  {
    if count <= 0 || data == [] || |data[0]| != w then [] else [data[0]] + Whole(data[1..], w, count - 1)
  }

  // What kv_disk_load returns of a file, limit being the room the context leaves.
  function Recovered(d: Disk, w: nat, limit: int): seq<Record> {
    if !Readable(d) || d.count < 1 || d.count >= limit then [] else Whole(d.data, w, d.count)
  }

  ghost predicate Wide(h: History, w: nat) {
    forall p :: 0 <= p < |h| ==> |h[p]| == w
  }

  // No record is longer than w, and only the last may be shorter.
  ghost predicate Shaped(data: seq<Record>, w: nat) {
    && (forall p :: 0 <= p < |data| ==> |data[p]| <= w)
    && forall p :: 0 <= p < |data| - 1 ==> |data[p]| == w
  }

  // A complete record under the counter is the history's own.
  ghost predicate Honest(d: Disk, w: nat, h: History) {
    Readable(d) ==>
      forall p :: 0 <= p < d.count && p < |d.data| && |d.data[p]| == w ==> p < |h| && d.data[p] == h[p]
  }

  // The file agrees with the history, of which the engine believes the first nrec records stored.
  ghost predicate Coherent(d: Disk, w: nat, nrec: nat, h: History) {
    && w > 0 && Wide(h, w) && Shaped(d.data, w) && Honest(d, w, h)
    && nrec <= |h| && nrec <= |d.data| && d.data[..nrec] == h[..nrec]
    && (!d.present ==> d.data == [])
  }

  // Whatever else happened, a reload returns a prefix of the history.
  lemma {:induction false} WholeIsPrefix(data: seq<Record>, w: nat, count: int, h: History)
    requires forall p :: 0 <= p < count && p < |data| && |data[p]| == w ==> p < |h| && data[p] == h[p]
    ensures Whole(data, w, count) <= h
    decreases |data|
  {
    if count > 0 && data != [] && |data[0]| == w {
      var rest := h[1..];
      forall p | 0 <= p < count - 1 && p < |data[1..]| && |data[1..][p]| == w
        ensures p < |rest| && data[1..][p] == rest[p]
      {
        assert data[1..][p] == data[p + 1];
      }
      WholeIsPrefix(data[1..], w, count - 1, rest);
      assert h == [h[0]] + rest;
    }
  }

  lemma ReloadIsPrefix(d: Disk, w: nat, nrec: nat, h: History, limit: int)
    requires Coherent(d, w, nrec, h)
    ensures Recovered(d, w, limit) <= h
  {
    if Readable(d) {
      WholeIsPrefix(d.data, w, d.count, h);
    }
  }

  // What is stored at the front of the file is what a reload begins with.
  lemma StoredIsRead(d: Disk, w: nat, nrec: nat, h: History, limit: int)
    requires Coherent(d, w, nrec, h) && Readable(d) && nrec <= d.count < limit
    ensures h[..nrec] <= Recovered(d, w, limit)
  {
    assert Wide(h[..nrec], w);
    WholeBacked(d.data, w, nrec, d.count);
  }

  lemma {:induction false} WholeBacked(data: seq<Record>, w: nat, n: nat, count: int)
    requires n <= |data| && n <= count && Wide(data[..n], w)
    ensures data[..n] <= Whole(data, w, count)
    decreases n
  {
    if n > 0 {
      var rest := data[1..];
      assert data[..n][0] == data[0] && data[..n] == [data[0]] + rest[..n - 1];
      assert data[..n][1..] == rest[..n - 1];
      WideTail(data[..n], w, 1);
      WholeBacked(rest, w, n - 1, count - 1);
    }
  }

  // After an append that went through, a reload that fits the context returns the whole history if
  // and only if the file's header is in order.
  lemma ReloadIsAll(d: Disk, w: nat, h: History, limit: int)
    requires Coherent(d, w, |h|, h) && 0 < |h| == d.count < limit
    ensures Recovered(d, w, limit) == h <==> Readable(d)
  {
    ReloadIsPrefix(d, w, |h|, h, limit);
    if Readable(d) {
      StoredIsRead(d, w, |h|, h, limit);
      assert h[..|h|] == h;
    }
  }

  // The history may grow freely between operations.
  lemma HistoryGrows(d: Disk, w: nat, nrec: nat, h: History, more: History)
    requires Coherent(d, w, nrec, h) && Wide(more, w)
    ensures Coherent(d, w, nrec, h + more)
  {
  }

  // ---- writing records ----

  // Writes value j of record p: over what is there, or at the end of the file.
  function WithCell(data: seq<Record>, p: nat, j: nat, v: int): seq<Record>
    requires (p < |data| && j <= |data[p]|) || (p == |data| && j == 0)
  {
    if p == |data| then data + [[v]]
    else if j < |data[p]| then data[p := data[p][j := v]]
    else data[p := data[p] + [v]]
  }

  // The records after from have been overwritten up to value j of record p.
  function Patched(base: seq<Record>, h: History, from: nat, p: nat, j: nat): seq<Record>
    requires from <= p <= |h| && from <= |base| && (j > 0 ==> p < |h| && j <= |h[p]|)
  {
    base[..from] + h[from..p] + Rest(base, h, p, j)
  }

  function Rest(base: seq<Record>, h: History, p: nat, j: nat): seq<Record>
    requires p <= |h| && (j > 0 ==> p < |h| && j <= |h[p]|)
  {
    if j == 0 then (if p <= |base| then base[p..] else [])
    else [Half(base, h, p, j)] + (if p + 1 <= |base| then base[p + 1..] else [])
  }

  // A record of which the first j values are new.
  function Half(base: seq<Record>, h: History, p: nat, j: nat): Record
    requires p < |h| && j <= |h[p]|
  {
    h[p][..j] + (if p < |base| && j < |base[p]| then base[p][j..] else [])
  }

  lemma PatchedParts(base: seq<Record>, h: History, from: nat, p: nat, j: nat)
    requires from <= p <= |h| && from <= |base| && (j > 0 ==> p < |h| && j <= |h[p]|)
    ensures var d := Patched(base, h, from, p, j);
            && p <= |d| && d[..p] == base[..from] + h[from..p] && d[p..] == Rest(base, h, p, j)
  {
    var a, z := base[..from] + h[from..p], Rest(base, h, p, j);
    assert |a| == p && (a + z)[..p] == a && (a + z)[p..] == z;
  }

  lemma PatchedStart(base: seq<Record>, h: History, from: nat)
    requires from <= |h| && from <= |base|
    ensures Patched(base, h, from, from, 0) == base
  {
    assert h[from..from] == [] && base == base[..from] + base[from..];
  }

  lemma RestCell(base: seq<Record>, h: History, w: nat, p: nat, j: nat)
    requires p < |h| && |h[p]| == w && j < w && Shaped(base, w)
    ensures var z := Rest(base, h, p, j);
            && (j > 0 ==> z != []) && (z != [] ==> j <= |z[0]|)
            && Rest(base, h, p, j + 1) == WithCell(z, 0, j, h[p][j])
  {
    hide Shaped;
    HalfCell(base, h, p, j);
    if j == 0 {
      RestFirst(base, h, p);
    } else {
      var z := Rest(base, h, p, j);
      assert z[1..] == if p + 1 <= |base| then base[p + 1..] else [];
      assert WithCell(z, 0, j, h[p][j]) == [Half(base, h, p, j + 1)] + z[1..];
    }
  }

  lemma RestFirst(base: seq<Record>, h: History, p: nat)
    requires p < |h| && h[p] != []
    ensures Rest(base, h, p, 1) == WithCell(Rest(base, h, p, 0), 0, 0, h[p][0])
  {
    HalfCell(base, h, p, 0);
    if p < |base| {
      var z := base[p..];
      assert z[0] == base[p] == Half(base, h, p, 0) && z[1..] == base[p + 1..];
      assert WithCell(z, 0, 0, h[p][0]) == [Half(base, h, p, 1)] + z[1..];
    } else {
      assert Rest(base, h, p, 0) == [];
      assert Half(base, h, p, 1) == [h[p][0]];
      assert Rest(base, h, p, 1) == [Half(base, h, p, 1)];
    }
  }

  lemma HalfCell(base: seq<Record>, h: History, p: nat, j: nat)
    requires p < |h| && j < |h[p]|
    ensures var r := Half(base, h, p, j);
            && j <= |r|
            && Half(base, h, p, j + 1) == if j < |r| then r[j := h[p][j]] else r + [h[p][j]]
  {
    var r := Half(base, h, p, j);
    assert h[p][..j + 1] == h[p][..j] + [h[p][j]];
    if p < |base| && j < |base[p]| {
      assert r[j := h[p][j]] == h[p][..j + 1] + base[p][j + 1..];
    }
  }

  lemma CellBehind(a: seq<Record>, z: seq<Record>, j: nat, v: int)
    requires (z != [] && j <= |z[0]|) || (z == [] && j == 0)
    ensures WithCell(a + z, |a|, j, v) == a + WithCell(z, 0, j, v)
  {
    if z == [] {
      assert a + z == a;
    } else {
      assert (a + z)[|a|] == z[0];
    }
  }

  // One value more.
  lemma PatchedCell(base: seq<Record>, h: History, w: nat, from: nat, p: nat, j: nat)
    requires from <= p < |h| && from <= |base| && Wide(h, w) && Shaped(base, w) && j < w
    ensures var d := Patched(base, h, from, p, j);
            && ((p < |d| && j <= |d[p]|) || (p == |d| && j == 0))
            && WithCell(d, p, j, h[p][j]) == Patched(base, h, from, p, j + 1)
  {
    RestCell(base, h, w, p, j);
    PatchedParts(base, h, from, p, j);
    var a, z := base[..from] + h[from..p], Rest(base, h, p, j);
    CellBehind(a, z, j, h[p][j]);
    if z != [] {
      assert (a + z)[p] == z[0];
    }
  }

  // A record is complete.
  lemma PatchedRecord(base: seq<Record>, h: History, w: nat, from: nat, p: nat)
    requires from <= p < |h| && from <= |base| && w > 0 && Wide(h, w) && Shaped(base, w)
    ensures Patched(base, h, from, p, w) == Patched(base, h, from, p + 1, 0)
  {
    assert h[from..p + 1] == h[from..p] + [h[p]] && h[p][..w] == h[p];
    assert Half(base, h, p, w) == h[p];
  }

  lemma RestShaped(base: seq<Record>, h: History, w: nat, p: nat, j: nat)
    requires p <= |h| && Wide(h, w) && Shaped(base, w) && (j > 0 ==> p < |h| && j <= w)
    ensures Shaped(Rest(base, h, p, j), w)
  {
    var z := Rest(base, h, p, j);
    forall q | 0 <= q < |z|
      ensures |z[q]| <= w && (q < |z| - 1 ==> |z[q]| == w)
    {
      if q > 0 || j == 0 {
        assert z[q] == base[p + q];
      }
    }
  }

  // The records in front agree with the history, and no complete record under the counter is spoilt.
  lemma PatchedCoherent(d: Disk, w: nat, h: History, from: nat, p: nat, j: nat)
    requires Coherent(d, w, from, h) && d.present && p <= |h| && from <= p && (j > 0 ==> p < |h| && j <= w)
    ensures Coherent(d.(data := Patched(d.data, h, from, p, j)), w, p, h)
  {
    var data, z := Patched(d.data, h, from, p, j), Rest(d.data, h, p, j);
    PatchedParts(d.data, h, from, p, j);
    assert data[..p] == h[..p];
    RestShaped(d.data, h, w, p, j);
    forall q | 0 <= q < |data|
      ensures |data[q]| <= w && (q < |data| - 1 ==> |data[q]| == w)
      ensures Readable(d) && q < d.count && |data[q]| == w ==> q < |h| && data[q] == h[q]
    {
      if q < p {
        assert data[q] == data[..p][q] == h[q];
      } else {
        assert data[q] == z[q - p];
        RestHonest(d, w, h, p, j, q);
      }
    }
  }

  lemma RestHonest(d: Disk, w: nat, h: History, p: nat, j: nat, q: nat)
    requires Wide(h, w) && Shaped(d.data, w) && Honest(d, w, h) && p <= |h| && (j > 0 ==> p < |h| && j <= w)
    requires p <= q < p + |Rest(d.data, h, p, j)|
    ensures var r := Rest(d.data, h, p, j)[q - p];
            Readable(d) && q < d.count && |r| == w ==> q < |h| && r == h[q]
  {
    var z := Rest(d.data, h, p, j);
    if j > 0 && q == p {
      HalfHonest(d, w, h, p, j);
    } else {
      assert z[q - p] == d.data[q];
    }
  }

  // A record half overwritten is complete only as the new one, if the old one under the counter was.
  lemma HalfHonest(d: Disk, w: nat, h: History, p: nat, j: nat)
    requires Wide(h, w) && Honest(d, w, h) && p < |h| && 0 < j <= w
    ensures Readable(d) && p < d.count && |Half(d.data, h, p, j)| == w ==> Half(d.data, h, p, j) == h[p]
  {
    var r := Half(d.data, h, p, j);
    assert h[p] == h[p][..j] + h[p][j..];
    if |r| == w && p < |d.data| && j < |d.data[p]| {
      assert |r| == |d.data[p]|;
    } else if |r| == w {
      assert h[p][..w] == h[p];
    }
  }

  // ---- the operations ----

  // The counter a new file begins with, or the file's own.
  function CountOf(d: Disk): int {
    if d.present then d.count else 0
  }

  // The file can be written to: records have the right shape and reach as far as nrec.
  ghost predicate Writable(d: Disk, w: nat, nrec: nat, h: History) {
    w > 0 && Wide(h, w) && Shaped(d.data, w) && nrec <= |d.data| && (!d.present ==> d.data == [])
  }

  // Both writes of a new file's header land.
  predicate HeaderLands(fate: nat -> Fate) {
    fate(0).Lands? && (fate(1).Lands? || fate(1) == Fails(true))
  }

  // A reload begins with the first m records of the history, whatever room it has.
  ghost predicate Survives(d: Disk, w: nat, h: History, m: nat) {
    m <= |h| && forall limit: int :: d.count < limit ==> h[..m] <= Recovered(d, w, limit)
  }

  lemma StoredSurvives(d: Disk, w: nat, nrec: nat, h: History)
    requires Coherent(d, w, nrec, h) && Readable(d) && nrec <= d.count
    ensures Survives(d, w, h, nrec)
  {
    forall limit: int | d.count < limit
      ensures h[..nrec] <= Recovered(d, w, limit)
    {
      StoredIsRead(d, w, nrec, h, limit);
    }
  }

  class KvStore {
    const w: nat
    var disk: Disk
    var nrec: nat

    constructor (w: nat)
      requires w > 0
      ensures this.w == w && disk == NO_FILE && nrec == 0 && Coherent(disk, w, nrec, [])
    {
      this.w, disk, nrec := w, NO_FILE, 0;
    }

    // Opens the file for appending, creating it with its header; ok is false when a header write
    // failed, and up is false when the process stopped.
    method Open(fate: nat -> Fate) returns (ok: bool, up: bool, asked: nat)
      requires !disk.present ==> disk.data == []
      modifies this`disk
      ensures disk.present && disk.data == old(disk.data) && disk.count == CountOf(old(disk))
      ensures old(disk.present) ==> disk == old(disk) && ok && up && asked == 0
      ensures !old(disk.present) ==> (Readable(disk) <==> HeaderLands(fate)) && (ok && up ==> Readable(disk))
      ensures (forall i :: fate(i).Lands?) ==> ok && up
    {
      ok, up, asked := true, true, 0;
      if disk.present {
        return;
      }
      disk := Disk(true, false, false, 0, []);
      var f := fate(asked);
      asked := asked + 1;
      if f.Stops? {
        up := false;
        return;
      }
      disk := disk.(magic := f.Lands? || f.landed);
      if f.Fails? {
        ok := false;
        return;
      }
      f := fate(asked);
      asked := asked + 1;
      if f.Stops? {
        up := false;
        return;
      }
      disk := disk.(shape := f.Lands? || f.landed);
      ok := f.Lands?;
    }

    // Writes record p, value by value, up to value j of it.
    method WriteRecord(h: History, p: nat, fate: nat -> Fate, asked0: nat, ghost base: seq<Record>, ghost from: nat)
      returns (ok: bool, up: bool, asked: nat, ghost j: nat)
      requires w > 0 && Wide(h, w) && Shaped(base, w) && from <= p < |h| && from <= |base|
      requires disk.data == Patched(base, h, from, p, 0)
      modifies this`disk
      ensures disk == old(disk).(data := disk.data) && j <= w
      ensures disk.data == Patched(base, h, from, p, j)
      ensures ok && up ==> j == w && asked == asked0 + w && forall i :: asked0 <= i < asked ==> fate(i).Lands?
      ensures !(ok && up) ==> asked0 < asked <= asked0 + w && !fate(asked - 1).Lands? && (up <==> !fate(asked - 1).Stops?)
      ensures !(ok && up) ==> j == asked - 1 - asked0 + (if fate(asked - 1) == Fails(true) then 1 else 0)
      ensures !(ok && up) ==> forall i :: asked0 <= i < asked - 1 ==> fate(i).Lands?
    {
      hide Patched;
      ok, up, asked, j := true, true, asked0, 0;
      for k := 0 to w
        invariant ok && up && j == k && asked == asked0 + k && disk == old(disk).(data := disk.data)
        invariant disk.data == Patched(base, h, from, p, k)
        invariant forall i :: asked0 <= i < asked ==> fate(i).Lands?
      {
        var f := fate(asked);
        asked := asked + 1;
        if f.Stops? {
          up := false;
          return;
        }
        PatchedCell(base, h, w, from, p, k);
        if f.Lands? || f.landed {
          disk := disk.(data := WithCell(disk.data, p, k, h[p][k]));
          j := k + 1;
        }
        if f.Fails? {
          ok := false;
          return;
        }
      }
    }

    // kv_disk_append: writes the records behind nrec, and then the counter. Whatever becomes of the
    // writes, the records are the old ones overwritten from nrec on, up to a point told by t, and
    // the counter changes only after the last record.
    method Append(h: History, fate: nat -> Fate) returns (up: bool, ghost t: Trace)
      requires Writable(disk, w, nrec, h)
      modifies this
      ensures |h| <= old(nrec) ==> up && disk == old(disk) && nrec == old(nrec)
      ensures |h| > old(nrec) ==> Appended(old(disk), disk, w, h, old(nrec), nrec, t)
      ensures |h| > old(nrec) && old(disk.present) ==> Follows(old(disk), disk, w, h, old(nrec), nrec, t, fate, up)
      ensures |h| > old(nrec) && (forall i :: fate(i).Lands?) ==> up && nrec == |h| == disk.count
      ensures |h| > old(nrec) && !old(disk.present) ==> (Readable(disk) <==> HeaderLands(fate))
      ensures |h| > old(nrec) && !old(disk.present) && !HeaderLands(fate) ==> nrec == old(nrec)
      ensures old(Coherent(disk, w, nrec, h)) ==> Coherent(disk, w, nrec, h)
      ensures old(Coherent(disk, w, nrec, h) && Readable(disk) && nrec <= disk.count) ==>
                Readable(disk) && old(nrec) <= nrec <= disk.count && Survives(disk, w, h, nrec)
    {
      hide Coherent, Survives, Patched, Wide, Shaped;
      up, t := true, Trace(0, 0, false, 0);
      if |h| <= nrec {
        if Coherent(disk, w, nrec, h) && Readable(disk) && nrec <= disk.count {
          StoredSurvives(disk, w, nrec, h);
        }
        return;
      }
      ghost var was, from := disk, nrec;
      up, t := WriteAll(h, fate);
      AppendedCoherent(was, disk, w, h, from, nrec, t);
    }

    // The body of an append that has something to write.
    method WriteAll(h: History, fate: nat -> Fate) returns (up: bool, ghost t: Trace)
      requires Writable(disk, w, nrec, h) && |h| > nrec
      modifies this
      ensures Appended(old(disk), disk, w, h, old(nrec), nrec, t)
      ensures old(disk.present) ==> Follows(old(disk), disk, w, h, old(nrec), nrec, t, fate, up)
      ensures (forall i :: fate(i).Lands?) ==> up && nrec == |h| == disk.count
      ensures !old(disk.present) ==> (Readable(disk) <==> HeaderLands(fate))
      ensures !old(disk.present) && !HeaderLands(fate) ==> nrec == old(nrec)
    {
      hide Patched, Wide, Shaped, HeaderLands, Wrote;
      ghost var base, from := disk.data, nrec;
      PatchedStart(base, h, from);
      var ok, asked;
      ok, up, asked := Open(fate);
      t := Trace(from, 0, false, 0);
      if !ok || !up {
        return;
      }
      ghost var first := asked;
      ok, up, asked, t := WriteRecords(h, fate, asked);
      WroteThrough(t, w, from, |h|, fate, first);
      if !ok || !up {
        return;
      }
      var f := fate(asked);
      if f.Stops? {
        up := false;
        return;
      }
      if f.Lands? || f.landed {
        disk := disk.(count := |h|);
      }
      if f.Fails? {
        return;
      }
      nrec := |h|;
    }

    // Writes the records behind nrec.
    method WriteRecords(h: History, fate: nat -> Fate, first: nat)
      returns (ok: bool, up: bool, asked: nat, ghost t: Trace)
      requires Writable(disk, w, nrec, h) && |h| > nrec
      modifies this`disk
      ensures nrec <= t.p <= |h| && t.j <= w && (t.j > 0 ==> t.p < |h|) && (t.through ==> t.p == |h|)
      ensures disk == old(disk).(data := Patched(old(disk.data), h, nrec, t.p, t.j))
      ensures Wrote(t, w, nrec, |h|, fate, first)
      ensures t.through <==> ok && up
      ensures asked == first + t.e + if t.through then 0 else 1
      ensures !t.through ==> (up <==> !fate(first + t.e).Stops?)
    {
      hide Patched, Shaped, Wide, Cells;
      ghost var base := disk.data;
      CellCount(nrec, nrec, |h|, w);
      PatchedStart(base, h, nrec);
      asked := first;
      for p := nrec to |h|
        invariant asked == first + Cells(p - nrec, w)
        invariant disk == old(disk).(data := disk.data) && disk.data == Patched(base, h, nrec, p, 0)
        invariant forall i :: first <= i < asked ==> fate(i).Lands?
      {
        ghost var j;
        ok, up, asked, j := WriteRecord(h, p, fate, asked, base, nrec);
        CellCount(p, nrec, |h|, w);
        if !ok || !up {
          t := Trace(p, j, false, asked - 1 - first);
          return;
        }
        PatchedRecord(base, h, w, nrec, p);
      }
      ok, up, t := true, true, Trace(|h|, 0, true, asked - first);
    }

    // kv_disk_truncate: only the counter is written, and nobody looks whether it was.
    method Truncate(n: nat, fate: Fate) returns (up: bool)
      modifies this
      ensures up == (!old(disk.present) || !fate.Stops?)
      ensures if !old(disk.present) then nrec == 0 && disk == old(disk)
              else if fate.Stops? then nrec == old(nrec) && disk == old(disk)
              else nrec == n && disk == (if fate == Fails(false) then old(disk) else old(disk).(count := n))
    {
      up := true;
      if !disk.present {
        nrec := 0;
        return;
      }
      if fate.Stops? {
        return false;
      }
      nrec := n;
      if fate.Lands? || fate.landed {
        disk := disk.(count := n);
      }
    }

    // kv_disk_load in a new process, which knows of no stored record: reads records until the
    // counter or an incomplete one. The file then agrees with what was read if and only if it
    // was not turned down for its length while holding records.
    method Restart(limit: int) returns (h: History)
      requires w > 0 && Shaped(disk.data, w) && (!disk.present ==> disk.data == [])
      modifies this`nrec
      ensures h == Recovered(disk, w, limit) && nrec == |h|
      ensures Coherent(disk, w, nrec, h) <==> Accepted(disk, w, limit)
    {
      nrec, h := 0, [];
      if !Readable(disk) || disk.count < 1 || disk.count >= limit {
        TurnedDown(disk, w);
        return;
      }
      var p := 0;
      while p < disk.count && p < |disk.data| && |disk.data[p]| == w
        invariant p == |h| <= |disk.data| && p <= disk.count && h == disk.data[..p] && Wide(h, w)
        decreases |disk.data| - p
      {
        h := h + [disk.data[p]];
        p := p + 1;
      }
      WholeSplit(disk.data, w, disk.count, p);
      nrec := |h|;
      Loaded(disk, w, h);
    }
  }

  // A reload with this much room reads the file, or the file holds nothing to read.
  ghost predicate Accepted(d: Disk, w: nat, limit: int) {
    !Readable(d) || d.count < limit || Whole(d.data, w, d.count) == []
  }

  // How far an append came: p records and j values of record p are new; through says that all
  // records were written; e writes landed before the one that decided.
  datatype Trace = Trace(p: nat, j: nat, through: bool, e: nat)

  // What an append leaves, wherever it was stopped.
  ghost predicate Appended(was: Disk, d: Disk, w: nat, h: History, from: nat, nrec: nat, t: Trace) {
    && Writable(was, w, from, h) && from <= t.p <= |h| && t.j <= w && (t.j > 0 ==> t.p < |h|)
    && d.present && (was.present ==> d.magic == was.magic && d.shape == was.shape)
    && d.data == Patched(was.data, h, from, t.p, t.j)
    && (t.through ==> t.p == |h|)
    && (d.count == CountOf(was) || (t.through && d.count == |h|))
    && (nrec == from || (t.through && nrec == |h| == d.count))
  }

  // The writes of the records, of which the first is number first, got as far as t says.
  ghost predicate Wrote(t: Trace, w: nat, from: nat, n: nat, fate: nat -> Fate, first: nat)
    requires from <= n && from <= t.p
  {
    && t.e <= Cells(n - from, w) && (t.through <==> t.e == Cells(n - from, w))
    && (forall i :: first <= i < first + t.e ==> fate(i).Lands?)
    && (!t.through ==> !fate(first + t.e).Lands?)
    && (!t.through ==> Cells(t.p - from, w) + t.j == t.e + if fate(first + t.e) == Fails(true) then 1 else 0)
  }

  lemma WroteThrough(t: Trace, w: nat, from: nat, n: nat, fate: nat -> Fate, first: nat)
    requires from <= n && from <= t.p && Wrote(t, w, from, n, fate, first)
    ensures (forall i :: fate(i).Lands?) ==> t.through
  {
  }

  // Which fates lead there, for a file that was there before.
  ghost predicate Follows(was: Disk, d: Disk, w: nat, h: History, from: nat, nrec: nat, t: Trace, fate: nat -> Fate, up: bool)
    requires from <= |h| && from <= t.p
  {
    && Wrote(t, w, from, |h|, fate, 0)
    && (!t.through ==> d.count == was.count)
    && (t.through ==> (d.count == |h| || fate(t.e) == Fails(false) || fate(t.e).Stops?)
                      && (fate(t.e).Lands? || fate(t.e) == Fails(true) || d.count == was.count))
    && (nrec == |h| <==> t.through && fate(t.e).Lands?)
    && (up <==> !fate(t.e).Stops?)
  }

  // The number of values in k records.
  function Cells(k: nat, w: nat): nat {
    k * w
  }

  lemma CellCount(p: nat, from: nat, n: nat, w: nat)
    requires from <= p < n && w > 0
    ensures Cells(0, w) == 0 && Cells(p + 1 - from, w) == Cells(p - from, w) + w <= Cells(n - from, w)
  {
  }

  // The file agrees with the history after an append that found it so.
  lemma AppendedCoherent(was: Disk, d: Disk, w: nat, h: History, from: nat, nrec: nat, t: Trace)
    requires Appended(was, d, w, h, from, nrec, t) && from < |h|
    ensures Coherent(was, w, from, h) ==> Coherent(d, w, nrec, h)
    ensures Coherent(was, w, from, h) && Readable(was) && from <= was.count ==>
              Readable(d) && from <= nrec <= d.count && Survives(d, w, h, nrec)
  {
    hide Patched, Survives;
    if Coherent(was, w, from, h) {
      var begun := Disk(true, d.magic, d.shape, CountOf(was), was.data);
      assert Coherent(begun, w, from, h);
      PatchedCoherent(begun, w, h, from, t.p, t.j);
      var c := begun.(data := d.data);
      if d.count == CountOf(was) {
        assert d == c;
      } else {
        CounterSet(c, w, h);
        assert d == c.(count := |h|);
      }
      Backed(d, w, h, nrec, t.p);
      if Readable(was) && from <= was.count {
        StoredSurvives(d, w, nrec, h);
      }
    }
  }

  lemma CounterSet(d: Disk, w: nat, h: History)
    requires Coherent(d, w, |h|, h)
    ensures Coherent(d.(count := |h|), w, |h|, h)
  {
    assert h[..|h|] == h;
    forall p | 0 <= p < |h| && p < |d.data|
      ensures d.data[p] == h[p]
    {
      assert d.data[p] == d.data[..|h|][p];
    }
  }

  lemma Backed(d: Disk, w: nat, h: History, nrec: nat, p: nat)
    requires Coherent(d, w, p, h) && nrec <= p
    ensures Coherent(d, w, nrec, h)
  {
    assert d.data[..nrec] == d.data[..p][..nrec] && h[..nrec] == h[..p][..nrec];
  }

  // Turning a file down and starting over agrees with it exactly when it holds no record.
  lemma TurnedDown(d: Disk, w: nat)
    requires w > 0 && Shaped(d.data, w) && (!d.present ==> d.data == [])
    ensures Coherent(d, w, 0, []) <==> !Readable(d) || Whole(d.data, w, d.count) == []
  {
    if Readable(d) && d.count > 0 && d.data != [] {
      if |d.data[0]| < w {
        assert |d.data| == 1;
      } else {
        assert Whole(d.data, w, d.count)[0] == d.data[0];
      }
    }
  }

  lemma {:induction false} WholeSplit(data: seq<Record>, w: nat, count: nat, p: nat)
    requires p <= count && p <= |data| && Wide(data[..p], w)
    requires p == count || p == |data| || |data[p]| != w
    ensures Whole(data, w, count) == data[..p]
    decreases p
  {
    if p > 0 {
      assert data[..p][0] == data[0] && data[1..][..p - 1] == data[..p][1..];
      assert p < |data| ==> data[1..][p - 1] == data[p];
      WholeSplit(data[1..], w, count - 1, p - 1);
      assert data[..p] == [data[0]] + data[1..][..p - 1];
    }
  }

  // What was read back agrees with the file it came from.
  lemma Loaded(d: Disk, w: nat, h: History)
    requires w > 0 && Shaped(d.data, w) && Readable(d) && |h| <= |d.data| && h == d.data[..|h|] && Wide(h, w)
    requires |h| >= d.count || |h| == |d.data| || |d.data[|h|]| != w
    ensures Coherent(d, w, |h|, h)
  {
    if |h| < |d.data| && |h| < d.count {
      assert |h| == |d.data| - 1;
    }
  }

  // Truncating to what the engine knows to be stored keeps the file in agreement.
  lemma TruncateSafe(d: Disk, w: nat, nrec: nat, h: History, n: nat)
    requires Coherent(d, w, nrec, h) && n <= nrec
    ensures n <= |h|
    ensures Coherent(if d.present then d.(count := n) else d, w, if d.present then n else 0, h[..n])
  {
    assert d.data[..n] == d.data[..nrec][..n] && h[..n] == h[..nrec][..n];
  }

  lemma NothingStored(d: Disk, w: nat, nrec: nat, h: History, n: nat)
    requires Coherent(d, w, nrec, h) && !d.present && n <= |h|
    ensures Coherent(d, w, 0, h[..n])
  {
  }

  // ---- going on from a file ----

  // How far an append may have come when the process stops: p records and j values of record p are
  // new, and perhaps the counter.
  datatype Point = Point(p: nat, j: nat, counted: bool)

  // g continues h, and its append can be stopped at x.
  ghost predicate Continues(w: nat, h: History, g: History, x: Point) {
    && h <= g && Wide(g, w) && |h| <= x.p <= |g| && (x.j > 0 ==> x.p < |g| && x.j <= w)
    && (x.counted ==> x.p == |g|)
  }

  function Reached(d: Disk, h: History, g: History, x: Point): Disk
    requires |h| <= |d.data| && |h| <= x.p <= |g| && (x.j > 0 ==> x.p < |g| && x.j <= |g[x.p]|)
  {
    d.(data := Patched(d.data, g, |h|, x.p, x.j), count := if x.counted then |g| else d.count)
  }

  // Taking the file for h, every continuation stopped anywhere reloads as a prefix of its history.
  ghost predicate ContinuationsKeep(d: Disk, w: nat, h: History)
    requires |h| <= |d.data|
  {
    forall g: History, x: Point, limit: int :: Continues(w, h, g, x) ==> Recovered(Reached(d, h, g, x), w, limit) <= g
  }

  // Under the counter there is no complete record from n on.
  ghost predicate Clear(d: Disk, w: nat, n: nat) {
    forall p :: n <= p < d.count && p < |d.data| ==> |d.data[p]| != w
  }

  // Continuations are safe if and only if the file is unreadable or holds no complete record
  // behind the history and under the counter.
  lemma KeepsExactly(d: Disk, w: nat, h: History)
    requires w > 0 && d.present && Shaped(d.data, w) && Wide(h, w) && h <= d.data
    ensures Coherent(d, w, |h|, h) <==> !Readable(d) || Clear(d, w, |h|)
    ensures ContinuationsKeep(d, w, h) <==> !Readable(d) || Clear(d, w, |h|)
  {
    hide ContinuationsKeep, Whole;
    assert h[..|h|] == h == d.data[..|h|];
    if !Readable(d) || Clear(d, w, |h|) {
      AgreeingKeeps(d, w, h);
    } else {
      MixedAtOnce(d, w, h);
    }
  }

  lemma AgreeingKeeps(d: Disk, w: nat, h: History)
    requires d.present && Coherent(d, w, |h|, h)
    ensures ContinuationsKeep(d, w, h)
  {
    hide Coherent, Recovered, Patched;
    CoherentIsWritable(d, w, |h|, h);
    forall g: History, x: Point, limit: int | Continues(w, h, g, x)
      ensures Recovered(Reached(d, h, g, x), w, limit) <= g
    {
      PointKeeps(d, w, h, g, x, limit);
    }
  }

  // A stop before the first write leaves the file itself, which shows a record too many.
  lemma MixedAtOnce(d: Disk, w: nat, h: History)
    requires w > 0 && Shaped(d.data, w) && Wide(h, w) && h <= d.data && Readable(d) && !Clear(d, w, |h|)
    ensures !ContinuationsKeep(d, w, h)
  {
    var p: nat :| |h| <= p < d.count && p < |d.data| && |d.data[p]| == w;
    WholeBacked(d.data, w, p + 1, d.count);
    var x, limit := Point(|h|, 0, false), d.count + 1;
    PatchedStart(d.data, h, |h|);
    assert Reached(d, h, h, x) == d;
    assert Continues(w, h, h, x) && !(Recovered(Reached(d, h, h, x), w, limit) <= h);
  }

  lemma PointKeeps(d: Disk, w: nat, h: History, g: History, x: Point, limit: int)
    requires d.present && Coherent(d, w, |h|, h) && Continues(w, h, g, x)
    ensures Recovered(Reached(d, h, g, x), w, limit) <= g
  {
    hide Coherent, Patched, Recovered, Wide;
    WideTail(g, w, |h|);
    HistoryGrows(d, w, |h|, h, g[|h|..]);
    assert h + g[|h|..] == g;
    PatchedCoherent(d, w, g, |h|, x.p, x.j);
    var e := d.(data := Patched(d.data, g, |h|, x.p, x.j));
    if x.counted {
      CounterSet(e, w, g);
    }
    ReloadIsPrefix(Reached(d, h, g, x), w, x.p, g, limit);
  }

  lemma WideTail(g: History, w: nat, n: nat)
    requires Wide(g, w) && n <= |g|
    ensures Wide(g[n..], w)
  {
  }

  // A truncate whose write is lost: for every file, history and n, going on is safe if and only if
  // the counter covers no complete record from n on.
  lemma LostTruncateExact(d: Disk, w: nat, nrec: nat, h: History, n: nat)
    requires Coherent(d, w, nrec, h) && d.present && n <= nrec
    ensures n <= |h| && n <= |d.data|
    ensures ContinuationsKeep(d, w, h[..n]) <==> !Readable(d) || Clear(d, w, n)
    ensures Coherent(d, w, n, h[..n]) <==> !Readable(d) || Clear(d, w, n)
  {
    assert h[..n] == h[..nrec][..n] && d.data[..n] == d.data[..nrec][..n];
    KeepsExactly(d, w, h[..n]);
  }

  // A file turned down for its length: going on is safe if and only if it holds nothing to read.
  lemma RestartExact(d: Disk, w: nat, limit: int)
    requires w > 0 && d.present && Shaped(d.data, w)
    ensures Recovered(d, w, limit) <= d.data
    ensures ContinuationsKeep(d, w, Recovered(d, w, limit)) <==> Accepted(d, w, limit)
  {
    hide Coherent, ContinuationsKeep, Clear, Shaped;
    WholeIsWide(d.data, w, d.count);
    KeepsExactly(d, w, Recovered(d, w, limit));
    if Readable(d) {
      ClearExactly(d, w, limit);
    }
  }

  lemma ClearExactly(d: Disk, w: nat, limit: int)
    requires w > 0 && Readable(d) && Shaped(d.data, w)
    ensures Clear(d, w, |Recovered(d, w, limit)|) <==> Accepted(d, w, limit)
  {
    if 1 <= d.count < limit {
      WholeStops(d.data, w, d.count);
    } else if d.count >= 1 && d.data != [] && |d.data[0]| != w {
      assert |d.data| == 1;
    }
  }

  lemma {:induction false} WholeIsWide(data: seq<Record>, w: nat, count: int)
    ensures Wide(Whole(data, w, count), w) && Whole(data, w, count) <= data
  {
    if count > 0 && data != [] && |data[0]| == w {
      WholeIsWide(data[1..], w, count - 1);
    }
  }

  // Reading stops at the counter, at the end, or at a record that is not complete, which is the last.
  lemma {:induction false} WholeStops(data: seq<Record>, w: nat, count: int)
    requires Shaped(data, w)
    ensures var n := |Whole(data, w, count)|; n <= |data| && (n < count && n < |data| ==> |data[n]| < w && n == |data| - 1)
  {
    if count > 0 && data != [] && |data[0]| == w {
      ShapedTail(data, w);
      WholeStops(data[1..], w, count - 1);
    }
  }

  lemma ShapedTail(data: seq<Record>, w: nat)
    requires Shaped(data, w) && data != []
    ensures Shaped(data[1..], w)
  {
    var rest := data[1..];
    forall p | 0 <= p < |rest|
      ensures |rest[p]| <= w && (p < |rest| - 1 ==> |rest[p]| == w)
    {
      assert rest[p] == data[p + 1];
    }
  }

  // ---- any sequence of operations ----

  // The history grows and is appended, or is cut to at most what is stored, or the process is
  // restarted with room for limit records.
  datatype Op = Grow(more: History, fates: nat -> Fate) | Cut(n: nat, fate: Fate) | Again(limit: int)

  // The history held after the first n operations, where operation i shortened it to cuts[i].
  function Held(h0: History, ops: seq<Op>, cuts: seq<nat>, n: nat): History
    requires n <= |ops| && n <= |cuts|
  {
    if n == 0 then h0 else
      var h := Held(h0, ops, cuts, n - 1);
      match ops[n - 1]
      case Grow(more, _) => h + more
      case _ => if cuts[n - 1] <= |h| then h[..cuts[n - 1]] else h
  }

  function Least(a: nat, b: nat): nat {
    if a < b then a else b
  }

  // Operation i shortens the history as it should, and what is stored goes from s to t records.
  ghost predicate Fair(x: Op, h: History, after: History, cut: nat, s: nat, t: nat, sound: bool) {
    match x
    case Grow(_, fate) =>
      (t == s || t == |after|) && s <= t && ((forall k :: fate(k).Lands?) && |after| > s ==> t == |after|)
    case Cut(n, fate) =>
      if fate.Stops? then t == s && cut == |h| else cut == t == Least(n, s) || (s == t == 0 && cut == Least(n, |h|))
    case Again(_) => (cut == t && (sound ==> s <= t)) || (t == s && cut == |h|)
  }

  ghost predicate FairRun(h0: History, ops: seq<Op>, cuts: seq<nat>, st: seq<nat>, done: nat, sound: bool) {
    && done == |cuts| <= |ops| && |st| == done + 1
    && forall i :: 0 <= i < done ==>
         Fair(ops[i], Held(h0, ops, cuts, i), Held(h0, ops, cuts, i + 1), cuts[i], st[i], st[i + 1], sound)
  }

  lemma {:induction false} HeldEarlier(h0: History, ops: seq<Op>, cuts: seq<nat>, c: nat, n: nat)
    requires n <= |ops| && n <= |cuts|
    ensures Held(h0, ops, cuts + [c], n) == Held(h0, ops, cuts, n)
  {
    if n > 0 {
      HeldEarlier(h0, ops, cuts, c, n - 1);
    }
  }

  lemma FairStep(h0: History, ops: seq<Op>, cuts: seq<nat>, st: seq<nat>, done: nat, sound: bool, c: nat, t: nat)
    requires FairRun(h0, ops, cuts, st, done, sound) && done < |ops|
    requires Fair(ops[done], Held(h0, ops, cuts, done), Held(h0, ops, cuts + [c], done + 1), c, st[done], t, sound)
    ensures FairRun(h0, ops, cuts + [c], st + [t], done + 1, sound)
  {
    hide Fair, Held;
    forall i | 0 <= i < done + 1
      ensures Fair(ops[i], Held(h0, ops, cuts + [c], i), Held(h0, ops, cuts + [c], i + 1), (cuts + [c])[i],
                   (st + [t])[i], (st + [t])[i + 1], sound)
    {
      HeldEarlier(h0, ops, cuts, c, i);
      if i < done {
        HeldEarlier(h0, ops, cuts, c, i + 1);
      }
    }
  }

  // The file is sound: readable, with a counter that covers what the engine knows to be stored.
  predicate Sound(d: Disk, nrec: nat) {
    Readable(d) && nrec <= d.count
  }

  // After any sequence of operations, stopped at any single write, a reload returns a prefix of the
  // history held; from a sound file it begins with everything known to be stored. A run ends early
  // when the process stops for good or a restart turns the file down.
  method Run(s: KvStore, h0: History, ops: seq<Op>)
      returns (h: History, up: bool, done: nat, cuts: seq<nat>, ghost st: seq<nat>)
    requires Coherent(s.disk, s.w, s.nrec, h0)
    requires forall i :: 0 <= i < |ops| && ops[i].Grow? ==> Wide(ops[i].more, s.w)
    requires forall i :: 0 <= i < |ops| && ops[i].Cut? ==> ops[i].fate != Fails(false)
    modifies s
    ensures up ==> done == |ops|
    ensures FairRun(h0, ops, cuts, st, done, old(Sound(s.disk, s.nrec))) && h == Held(h0, ops, cuts, done)
    ensures st[0] == old(s.nrec) && Coherent(s.disk, s.w, st[done], h)
    ensures forall limit :: Recovered(s.disk, s.w, limit) <= h
    ensures old(Sound(s.disk, s.nrec)) ==> Survives(s.disk, s.w, h, st[done])
  {
    hide Coherent, Recovered, Held, FairRun, Survives, Wide;
    ghost var sound := Sound(s.disk, s.nrec);
    h, up, done, cuts, st := h0, true, 0, [], [s.nrec];
    NothingDone(h0, ops, sound, s.nrec);
    while done < |ops| && up
      invariant done <= |ops| && done == |cuts| && |st| == done + 1 && st[0] == old(s.nrec)
      invariant st[done] == s.nrec && Coherent(s.disk, s.w, s.nrec, h)
      invariant sound ==> Sound(s.disk, s.nrec)
      invariant h == Held(h0, ops, cuts, done) && FairRun(h0, ops, cuts, st, done, sound)
      decreases |ops| - done, up
    {
      ghost var was, before := s.nrec, h;
      var k;
      h, up, k := OneOp(s, h, ops[done], sound);
      HeldNext(h0, ops, cuts, done, k);
      FairStep(h0, ops, cuts, st, done, sound, k, s.nrec);
      cuts, st := cuts + [k], st + [s.nrec];
      done := done + 1;
    }
    forall limit
      ensures Recovered(s.disk, s.w, limit) <= h
    {
      ReloadIsPrefix(s.disk, s.w, s.nrec, h, limit);
    }
    if sound {
      StoredSurvives(s.disk, s.w, s.nrec, h);
    }
  }

  lemma NothingDone(h0: History, ops: seq<Op>, sound: bool, n: nat)
    ensures FairRun(h0, ops, [], [n], 0, sound) && Held(h0, ops, [], 0) == h0
  {
  }

  // The history after an operation that leaves it with cut k.
  function HeldAfter(x: Op, h: History, k: nat): History {
    match x
    case Grow(more, _) => h + more
    case _ => if k <= |h| then h[..k] else h
  }

  lemma HeldNext(h0: History, ops: seq<Op>, cuts: seq<nat>, done: nat, k: nat)
    requires done < |ops| && done == |cuts|
    ensures Held(h0, ops, cuts + [k], done + 1) == HeldAfter(ops[done], Held(h0, ops, cuts, done), k)
  {
    HeldEarlier(h0, ops, cuts, k, done);
  }

  method OneOp(s: KvStore, h0: History, x: Op, ghost sound: bool) returns (h: History, up: bool, k: nat)
    requires Coherent(s.disk, s.w, s.nrec, h0) && (x.Grow? ==> Wide(x.more, s.w)) && (x.Cut? ==> x.fate != Fails(false))
    requires sound ==> Sound(s.disk, s.nrec)
    modifies s
    ensures h == HeldAfter(x, h0, k) && Fair(x, h0, h, k, old(s.nrec), s.nrec, sound)
    ensures Coherent(s.disk, s.w, s.nrec, h) && (sound ==> Sound(s.disk, s.nrec))
  {
    hide Coherent, Recovered, Survives, Wide;
    h, up, k := h0, true, |h0|;
    match x {
      case Grow(more, fate) =>
        HistoryGrows(s.disk, s.w, s.nrec, h, more);
        h := h + more;
        CoherentIsWritable(s.disk, s.w, s.nrec, h);
        ghost var t;
        up, t := s.Append(h, fate);
        CoherentIsWritable(s.disk, s.w, s.nrec, h);
      case Cut(n, fate) =>
        CoherentIsWritable(s.disk, s.w, s.nrec, h);
        if s.disk.present && fate.Stops? {
          up := s.Truncate(n, fate);
          assert h[..|h|] == h;
          return;
        }
        var most := if s.disk.present then s.nrec else |h|;
        k := if n < most then n else most;
        if s.disk.present {
          TruncateSafe(s.disk, s.w, s.nrec, h, k);
        } else {
          if fate.Stops? {
            up := false;
            k := |h|;
          }
          NothingStored(s.disk, s.w, s.nrec, h, k);
          NotThere(s.disk, s.w, s.nrec, h);
        }
        up := s.Truncate(k, fate);
        h := h[..k];
      case Again(limit) =>
        CoherentIsWritable(s.disk, s.w, s.nrec, h);
        ReloadIsPrefix(s.disk, s.w, s.nrec, h, limit);
        if Readable(s.disk) && s.disk.count >= limit {
          up := false;
          assert h[..|h|] == h;
          return;
        }
        ghost var was := s.nrec;
        if sound {
          StoredIsRead(s.disk, s.w, s.nrec, h, limit);
        }
        var r := s.Restart(limit);
        k := |r|;
        assert h0[..k] == r;
        h := r;
        ReadIsCounted(s.disk, s.w, limit);
    }
  }

  lemma CoherentIsWritable(d: Disk, w: nat, nrec: nat, h: History)
    requires Coherent(d, w, nrec, h)
    ensures Writable(d, w, nrec, h) && nrec <= |h|
  {
  }

  lemma NotThere(d: Disk, w: nat, nrec: nat, h: History)
    requires Coherent(d, w, nrec, h) && !d.present
    ensures nrec == 0
  {
  }

  lemma ReadIsCounted(d: Disk, w: nat, limit: int)
    ensures Readable(d) && d.count >= 0 ==> |Recovered(d, w, limit)| <= d.count
  {
  }

  // ---- truncating beyond what is stored ----

  // Whatever room the reload has, it returns a prefix of the shortened history.
  ghost predicate TruncateKeeps(d: Disk, w: nat, h: History, n: nat)
    requires n <= |h|
  {
    forall limit: int :: Recovered(d.(count := n), w, limit) <= h[..n]
  }

  // Truncating to n is safe for every file and history exactly when n is at most the stored count.
  lemma TruncateExact(w: nat, nrec: nat, n: nat)
    requires w > 0
    ensures n <= nrec <==>
            forall d: Disk, h: History :: Coherent(d, w, nrec, h) && d.present && n <= |h| ==> TruncateKeeps(d, w, h, n)
  {
    hide Coherent, Recovered;
    if n <= nrec {
      forall d: Disk, h: History | Coherent(d, w, nrec, h) && d.present && n <= |h|
        ensures TruncateKeeps(d, w, h, n)
      {
        TruncateSafe(d, w, nrec, h, n);
        forall limit: int
          ensures Recovered(d.(count := n), w, limit) <= h[..n]
        {
          ReloadIsPrefix(d.(count := n), w, n, h[..n], limit);
        }
      }
    } else {
      StaleBeyond(w, nrec, n);
    }
  }

  function Same(w: nat, v: int): (r: Record)
    ensures |r| == w && forall i :: 0 <= i < w ==> r[i] == v
  {
    seq(w, _ => v)
  }

  function Times(n: nat, r: Record): (h: History)
    ensures |h| == n && forall p :: 0 <= p < n ==> h[p] == r
  {
    seq(n, _ => r)
  }

  // A file whose records behind the counter belong to an earlier history.
  lemma StaleBeyond(w: nat, nrec: nat, n: nat)
    requires w > 0 && nrec < n
    ensures exists d: Disk, h: History :: Coherent(d, w, nrec, h) && d.present && n <= |h| && !TruncateKeeps(d, w, h, n)
  {
    var data := Times(n, Same(w, 0));
    var h := Times(nrec, Same(w, 0)) + Times(n - nrec, Same(w, 1));
    var d := Disk(true, true, true, nrec, data);
    assert data[..nrec] == h[..nrec];
    WholeBacked(data, w, n, n);
    assert data[..n] <= Recovered(d.(count := n), w, n + 1);
    assert data[nrec][0] == 0 && h[nrec][0] == 1;
    assert !(data[..n] <= h[..n]) by {
      assert data[..n][nrec] != h[..n][nrec];
    }
    assert !TruncateKeeps(d, w, h, n);
    assert Coherent(d, w, nrec, h);
  }

  // ---- the failures, as runs ----

  // Stops at write n, everything before lands.
  function StopsAt(n: nat): nat -> Fate {
    i => if i < n then Lands else Stops
  }

  // Three records stored, of one value each.
  method StoreThree() returns (s: KvStore)
    ensures fresh(s) && s.w == 1 && s.nrec == 3 && s.disk == Disk(true, true, true, 3, [[1], [2], [3]])
  {
    hide Coherent, Survives;
    s := new KvStore(1);
    HistoryGrows(s.disk, 1, 0, [], [[1], [2], [3]]);
    assert [] + [[1], [2], [3]] == [[1], [2], [3]];
    CoherentIsWritable(s.disk, 1, 0, [[1], [2], [3]]);
    var up, t := s.Append([[1], [2], [3]], _ => Lands);
    assert t.p == 3 && s.disk.data == [] + [[1], [2], [3]] + [];
  }

  // An append that fails leaves the stored count behind the history, and the next prompt truncates
  // to a prefix longer than it: the reload shows a record of the older history.
  method FailedAppendThenTruncate() returns (s: KvStore, h: History)
    ensures fresh(s) && !(Recovered(s.disk, s.w, 100) <= h)
  {
    hide Coherent, Survives, Patched, Writable, Follows, Recovered;
    s := StoreThree();
    var up := s.Truncate(1, Lands);
    ghost var was := s.disk;
    StoredOnes(1);
    ghost var t;
    up, t := s.Append([[1], [5], [6]], _ => Fails(false));
    NothingLanded(was, s.disk, [[1], [5], [6]], 1, s.nrec, t, _ => Fails(false), up);
    h := [[1], [5]];
    up := s.Truncate(2, Lands);
    ReadAll(s.disk, 1, 2, 100);
    assert s.disk.data[..2][1] == [2] && h[1] == [5];
  }

  // The file of three records can be written to from record n on.
  lemma StoredOnes(n: nat)
    requires n <= 3
    ensures forall h: History :: Wide(h, 1) ==> Writable(Disk(true, true, true, n, [[1], [2], [3]]), 1, n, h)
    ensures Wide([[1], [5], [6]], 1)
  {
  }

  // An append whose first write fails without landing changes no record.
  lemma NothingLanded(was: Disk, d: Disk, h: History, from: nat, nrec: nat, t: Trace, fate: nat -> Fate, up: bool)
    requires Appended(was, d, 1, h, from, nrec, t) && from < |h| && fate(0) == Fails(false)
    requires Follows(was, d, 1, h, from, nrec, t, fate, up)
    ensures d.data == was.data
  {
    assert t.e == 0 && !t.through;
    assert (t.p - from) * 1 + t.j == 0;
    PatchedStart(was.data, h, from);
  }

  lemma ReadAll(d: Disk, w: nat, n: nat, limit: int)
    requires Readable(d) && 1 <= n == d.count < limit && n <= |d.data| && forall p :: 0 <= p < n ==> |d.data[p]| == w
    ensures Recovered(d, w, limit) == d.data[..n]
  {
    WholeBacked(d.data, w, n, n);
  }

  // A truncate that is lost: the counter stays at 3 while the engine goes on from record 1, and a
  // stop before the counter is written leaves a file that mixes two histories.
  method LostTruncate() returns (s: KvStore, h: History)
    ensures fresh(s) && !(Recovered(s.disk, s.w, 100) <= h)
  {
    s := StoreThree();
    var up := s.Truncate(1, Fails(false));
    h := [[1], [5]];
    ghost var t;
    up, t := s.Append(h, StopsAt(1));
    assert t.through && s.disk.count == 3;
    OverTwo(t);
    ReadAll(s.disk, 1, 3, 100);
    assert |s.disk.data[..3]| == 3;
  }

  // A file turned down for its length keeps its counter: the conversation begun over it, stopped
  // before its own counter is written, is read back with the old records behind it.
  method StartedOver() returns (s: KvStore, h: History)
    ensures fresh(s) && !(Recovered(s.disk, s.w, 100) <= h)
  {
    s := StoreThree();
    var r := s.Restart(2);
    assert r == [];
    h := [[5]];
    var up, t := s.Append(h, StopsAt(1));
    OverOne(t);
    ReadAll(s.disk, 1, 3, 100);
    assert |s.disk.data[..3]| == 3;
  }

  lemma OverTwo(t: Trace)
    requires t.p == 2 && t.j == 0
    ensures Patched([[1], [2], [3]], [[1], [5]], 1, 2, 0) == [[1], [5], [3]]
  {
  }

  lemma OverOne(t: Trace)
    requires t.p == 1 && t.j == 0
    ensures Patched([[1], [2], [3]], [[5]], 0, 1, 0) == [[5], [2], [3]]
  {
  }

  lemma PatchedShaped(data: seq<Record>, h: History, w: nat, t: Trace)
    requires Wide(h, w) && t.p <= |h| && (t.j > 0 ==> t.p < |h|) && t.j <= w && data == Patched([], h, 0, t.p, t.j)
    ensures Shaped(data, w)
  {
  }

  // A header that could not be written is never written again: everything appended later is
  // stored and counted, and no reload returns any of it.
  method HeaderLost(h: History, fate: nat -> Fate, w: nat) returns (s: KvStore)
    requires w > 0 && Wide(h, w) && h != [] && !HeaderLands(fate)
    ensures fresh(s) && s.nrec == |h| == s.disk.count && forall limit :: Recovered(s.disk, w, limit) == []
  {
    s := new KvStore(w);
    var up, t := s.Append(h, fate);
    PatchedShaped(s.disk.data, h, w, t);
    up, t := s.Append(h, _ => Lands);
  }
}
