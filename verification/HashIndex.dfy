/** The two open-addressing tables of the engine: the string map of c/tok.h and the tensor index of
    c/st.h. Both probe linearly, wrapping around a power-of-two table, and neither ever deletes. */
module HashIndex {
  import opened Arith
  import opened Wrappers

  // ---- probing ----

  // The cell d steps behind cell h.
  function At(h: nat, d: nat, cap: nat): (c: nat)
    requires h < cap && d < cap
    ensures c < cap
  {
    if h + d < cap then h + d else h + d - cap
  }

  // How many steps behind cell h cell c is.
  function Dist(h: nat, c: nat, cap: nat): (d: nat)
    requires h < cap && c < cap
    ensures d < cap && At(h, d, cap) == c
  {
    if c >= h then c - h else c + cap - h
  }

  lemma DistOfAt(h: nat, d: nat, cap: nat)
    requires h < cap && d < cap
    ensures Dist(h, At(h, d, cap), cap) == d
  {
  }

  // (h + 1) & (cap - 1) is one step further.
  lemma NextCell(h: nat, lg: nat)
    requires h < Pow2(lg)
    ensures Low(h + 1, lg) == if h + 1 == Pow2(lg) then 0 else h + 1
  {
    if h + 1 == Pow2(lg) {
      LowOfPow2(lg);
    } else {
      LowSmall(h + 1, lg);
    }
  }

  lemma {:induction false} LowOfPow2(lg: nat)
    ensures Low(Pow2(lg), lg) == 0
  {
    if lg > 0 {
      LowOfPow2(lg - 1);
    }
  }

  lemma AtStart(h: nat, cap: nat)
    requires h < cap
    ensures At(h, 0, cap) == h
  {
  }

  // One step further along a probe.
  lemma StepOn(h: nat, d: nat, lg: nat)
    requires h < Pow2(lg) && d + 1 < Pow2(lg)
    ensures Low(At(h, d, Pow2(lg)) + 1, lg) == At(h, d + 1, Pow2(lg))
  {
    NextCell(At(h, d, Pow2(lg)), lg);
  }

  // ---- occupancy ----

  // How many of the cells hold something.
  function Filled(free: seq<bool>): (n: nat)
    ensures n <= |free|
  {
    if free == [] then 0 else (if free[0] then 0 else 1) + Filled(free[1..])
  }

  lemma {:induction false} SomeFree(free: seq<bool>) returns (c: nat)
    requires Filled(free) < |free|
    ensures c < |free| && free[c]
  {
    if free[0] {
      c := 0;
    } else {
      c := SomeFree(free[1..]);
      c := c + 1;
    }
  }

  lemma {:induction false} FillOne(free: seq<bool>, c: nat)
    requires c < |free| && free[c]
    ensures Filled(free[c := false]) == Filled(free) + 1
  {
    if c > 0 {
      FillOne(free[1..], c - 1);
      assert free[c := false][1..] == free[1..][c - 1 := false];
    }
  }

  lemma {:induction false} NoneFilled(free: seq<bool>)
    requires forall c :: 0 <= c < |free| ==> free[c]
    ensures Filled(free) == 0
  {
    if free != [] {
      NoneFilled(free[1..]);
    }
  }

  // ---- the string map ----

  datatype Cell<K, V> = Empty | Used(k: K, v: V)
  function Frees<K, V>(t: seq<Cell<K, V>>): (f: seq<bool>)
    ensures |f| == |t| && forall c :: 0 <= c < |t| ==> f[c] == t[c].Empty?
  {
    seq(|t|, c requires 0 <= c < |t| => t[c].Empty?)
  }

  // Every cell between an entry's home and its place is in use.
  ghost predicate Chained<K(!new), V>(t: seq<Cell<K, V>>, home: K -> nat)
    requires forall k :: home(k) < |t|
  {
    forall c, d {:trigger t[c].k, At(home(t[c].k), d, |t|)} ::
      0 <= c < |t| && t[c].Used? && 0 <= d < Dist(home(t[c].k), c, |t|) ==> t[At(home(t[c].k), d, |t|)].Used?
  }

  // The table holds exactly the entries of m.
  ghost predicate Represents<K(!new), V>(t: seq<Cell<K, V>>, m: map<K, V>) {
    && (forall c :: 0 <= c < |t| && t[c].Used? ==> t[c].k in m && m[t[c].k] == t[c].v)
    && (forall k :: k in m ==> exists c :: 0 <= c < |t| && t[c].Used? && t[c].k == k)
    && (forall b, c :: 0 <= b < c < |t| && t[b].Used? && t[c].Used? ==> t[b].k != t[c].k)
  }

  // A free cell on the probe of an entry's key lies behind the entry.
  lemma GapBehind<K(!new), V>(t: seq<Cell<K, V>>, home: K -> nat, c: nat, d: nat)
    requires (forall k :: home(k) < |t|) && Chained(t, home) && c < |t| && d < |t| && t[c].Used?
    ensures t[At(home(t[c].k), d, |t|)].Empty? ==>
              Dist(home(t[c].k), c, |t|) < d && At(home(t[c].k), Dist(home(t[c].k), c, |t|), |t|) == c
  {
  }

  class HashMap<K(==, !new), V> {
    const lg: nat
    const hash: K -> nat
    var e: array<Cell<K, V>>
    ghost var m: map<K, V>

    ghost predicate Valid()
      reads this, e
    {
      && e.Length == Pow2(lg)
      && (forall k :: Home(k) < e.Length)
      && Represents(e[..], m) && Chained(e[..], Home)
      && Filled(Frees(e[..])) == |m|
    }

    // tk_fnv(k) & (cap - 1).
    function Home(k: K): nat {
      Low(hash(k), lg)
    }

    // hm_init.
    constructor (lg: nat, hash: K -> nat)
      ensures Valid() && m == map[] && fresh(e) && this.lg == lg && this.hash == hash
    {
      this.lg, this.hash, m := lg, hash, map[];
      e := new Cell<K, V>[Pow2(lg)](_ => Empty);
      new;
      NoneFilled(Frees(e[..]));
    }

    // The probe both operations make: the cell of k, or the first free cell behind its home.
    method Probe(k: K) returns (h: nat, ghost d: nat)
      requires Valid() && |m| < e.Length
      ensures h < e.Length && d < e.Length && h == At(Home(k), d, e.Length)
      ensures e[h].Used? ==> e[h].k == k
      ensures forall x :: 0 <= x < d ==> e[At(Home(k), x, e.Length)].Used? && e[At(Home(k), x, e.Length)].k != k
    {
      hide Represents, Chained, At, Dist, Filled, Home;
      h := Home(k);
      d := 0;
      AtStart(h, e.Length);
      ghost var gap := SomeFree(Frees(e[..]));
      ghost var far := Dist(h, gap, e.Length);
      while e[h].Used? && e[h].k != k
        invariant d <= far && h < e.Length && h == At(Home(k), d, e.Length)
        invariant forall x :: 0 <= x < d ==> e[At(Home(k), x, e.Length)].Used? && e[At(Home(k), x, e.Length)].k != k
        decreases far - d
      {
        StepOn(Home(k), d, lg);
        h := Low(h + 1, lg);
        d := d + 1;
      }
    }

    // A probe that ends on a free cell means the key is nowhere.
    lemma NotThere(k: K, d: nat)
      requires Valid() && d < e.Length && e[At(Home(k), d, e.Length)].Empty?
      requires forall x :: 0 <= x < d ==> e[At(Home(k), x, e.Length)].Used? && e[At(Home(k), x, e.Length)].k != k
      ensures k !in m
    {
      forall c | 0 <= c < e.Length && e[..][c].Used?
        ensures e[..][c].k != k
      {
        GapBehind(e[..], Home, c, d);
      }
    }

    // hm_get: the value of the key, None where the source answers -1.
    method Get(k: K) returns (r: Option<V>)
      requires Valid() && |m| < e.Length
      ensures r == if k in m then Some(m[k]) else None
    {
      var h, d := Probe(k);
      if e[h].Used? {
        assert e[..][h] == e[h];
        return Some(e[h].v);
      }
      NotThere(k, d);
      r := None;
    }

    // hm_put: overwrites the key's value or adds the key.
    method Put(k: K, v: V)
      requires Valid() && |m| < e.Length
      modifies this`m, e
      ensures Valid() && e == old(e) && m == old(m)[k := v]
    {
      var h, d := Probe(k);
      ghost var t := e[..];
      if e[h].Used? {
        assert t[h] == e[h];
        e[h] := Used(k, v);
        m := m[k := v];
        Overwritten(t, e[..], old(m), Home, h, v);
      } else {
        NotThere(k, d);
        e[h] := Used(k, v);
        m := m[k := v];
        Added(t, e[..], old(m), Home, h, d, k, v);
      }
    }
  }

  // The map a list of entries makes, later ones overwriting earlier ones.
  function Listed<K, V>(entries: seq<(K, V)>): (m: map<K, V>)
    ensures |m| <= |entries|
  {
    if entries == [] then map[] else
      var n := |entries| - 1;
      Listed(entries[..n])[entries[n].0 := entries[n].1]
  }

  // The tables of tok_load: capacity at least twice the entries, so every lookup ends.
  method BuildMap<K(==, !new), V>(entries: seq<(K, V)>, hash: K -> nat) returns (h: HashMap<K, V>)
    ensures fresh(h) && fresh(h.e) && h.Valid() && h.m == Listed(entries) && |h.m| < h.e.Length
  {
    var size, lg := 1, 0;
    while size < 2 * |entries|
      invariant size == Pow2(lg)
    {
      size, lg := 2 * size, lg + 1;
    }
    h := new HashMap<K, V>(lg, hash);
    for i := 0 to |entries|
      invariant fresh(h) && fresh(h.e) && h.Valid() && h.m == Listed(entries[..i]) && h.e.Length == size
    {
      assert entries[..i + 1][..i] == entries[..i];
      h.Put(entries[i].0, entries[i].1);
    }
    assert entries[..|entries|] == entries;
  }

  lemma Overwritten<K(!new), V>(t: seq<Cell<K, V>>, t2: seq<Cell<K, V>>, m: map<K, V>, home: K -> nat, h: nat, v: V)
    requires (forall k :: home(k) < |t|) && Represents(t, m) && Chained(t, home) && h < |t| && t[h].Used?
    requires t2 == t[h := Used(t[h].k, v)]
    ensures Represents(t2, m[t[h].k := v]) && Chained(t2, home) && Frees(t2) == Frees(t) && |m[t[h].k := v]| == |m|
  {
    SameKeys(t, t2, home);
    OverwrittenEntries(t, t2, m, h, v);
    var m2 := m[t[h].k := v];
    assert m2.Keys == m.Keys;
    assert |m2.Keys| == |m2| && |m.Keys| == |m|;
  }

  // Tables with the same keys in the same places are chained alike.
  lemma SameKeys<K(!new), V>(t: seq<Cell<K, V>>, t2: seq<Cell<K, V>>, home: K -> nat)
    requires (forall k :: home(k) < |t|) && Chained(t, home) && |t2| == |t|
    requires forall c :: 0 <= c < |t| ==> (t2[c].Used? <==> t[c].Used?) && (t[c].Used? ==> t2[c].k == t[c].k)
    ensures Chained(t2, home)
  {
  }

  lemma OverwrittenEntries<K(!new), V>(t: seq<Cell<K, V>>, t2: seq<Cell<K, V>>, m: map<K, V>, h: nat, v: V)
    requires Represents(t, m) && h < |t| && t[h].Used? && t2 == t[h := Used(t[h].k, v)]
    ensures Represents(t2, m[t[h].k := v])
  {
    var m2 := m[t[h].k := v];
    forall k | k in m2
      ensures exists c :: 0 <= c < |t2| && t2[c].Used? && t2[c].k == k
    {
      var c :| 0 <= c < |t| && t[c].Used? && t[c].k == k;
      assert t2[c].k == k;
    }
  }

  lemma Added<K(!new), V>(t: seq<Cell<K, V>>, t2: seq<Cell<K, V>>, m: map<K, V>, home: K -> nat, h: nat, d: nat, k: K, v: V)
    requires (forall k :: home(k) < |t|) && Represents(t, m) && Chained(t, home)
    requires h < |t| && t[h].Empty? && k !in m && d < |t| && h == At(home(k), d, |t|)
    requires forall x :: 0 <= x < d ==> t[At(home(k), x, |t|)].Used?
    requires t2 == t[h := Used(k, v)] && Filled(Frees(t)) == |m|
    ensures Represents(t2, m[k := v]) && Chained(t2, home) && Filled(Frees(t2)) == |m[k := v]|
  {
    hide Represents, Chained, At, Dist;
    AddedEntry(t, t2, m, h, k, v);
    AddedChain(t, t2, home, h, d, k, v);
    FillOne(Frees(t), h);
    assert Frees(t2) == Frees(t)[h := false];
  }

  lemma AddedEntry<K(!new), V>(t: seq<Cell<K, V>>, t2: seq<Cell<K, V>>, m: map<K, V>, h: nat, k: K, v: V)
    requires Represents(t, m) && h < |t| && t[h].Empty? && k !in m && t2 == t[h := Used(k, v)]
    ensures Represents(t2, m[k := v])
  {
    var m2 := m[k := v];
    forall x | x in m2
      ensures exists c :: 0 <= c < |t2| && t2[c].Used? && t2[c].k == x
    {
      if x == k {
        assert t2[h].k == k;
      } else {
        var c :| 0 <= c < |t| && t[c].Used? && t[c].k == x;
        assert t2[c].k == x;
      }
    }
  }

  lemma AddedChain<K(!new), V>(t: seq<Cell<K, V>>, t2: seq<Cell<K, V>>, home: K -> nat, h: nat, d: nat, k: K, v: V)
    requires (forall k :: home(k) < |t|) && Chained(t, home)
    requires h < |t| && t[h].Empty? && d < |t| && h == At(home(k), d, |t|)
    requires forall x :: 0 <= x < d ==> t[At(home(k), x, |t|)].Used?
    requires t2 == t[h := Used(k, v)]
    ensures Chained(t2, home)
  {
    DistOfAt(home(k), d, |t|);
    hide At, Dist;
  }

  // ---- the tensor index ----

  type Name = seq<nat>

  // The scan the index stands for: the first tensor of that name from i on, or |names|.
  function Scan(names: seq<Name>, name: Name, i: nat): (r: nat)
    requires i <= |names|
    ensures i <= r <= |names| && (r < |names| ==> names[r] == name)
    ensures forall j :: i <= j < r ==> names[j] != name
    decreases |names| - i
  {
    if i == |names| || names[i] == name then i else Scan(names, name, i + 1)
  }

  // Cells hold an index or -1. The first n tensors are in, each behind a run of earlier ones.
  ghost predicate Indexed(cells: seq<int>, names: seq<Name>, hash: Name -> nat, lg: nat, n: nat)
    requires |cells| == Pow2(lg) && n <= |names|
  {
    && (forall c :: 0 <= c < |cells| ==> -1 <= cells[c] < n)
    && (forall i :: 0 <= i < n ==> Has(cells, i))
    && forall c, d {:trigger cells[c], At(Low(hash(names[cells[c]]), lg), d, |cells|)} ::
         0 <= c < |cells| && cells[c] >= 0 && 0 <= d < Dist(Low(hash(names[cells[c]]), lg), c, |cells|) ==>
         0 <= cells[At(Low(hash(names[cells[c]]), lg), d, |cells|)] < cells[c]
  }

  ghost predicate Has(cells: seq<int>, i: int) {
    exists c :: 0 <= c < |cells| && cells[c] == i
  }

  function FreeCells(cells: seq<int>): (f: seq<bool>)
    ensures |f| == |cells| && forall c :: 0 <= c < |cells| ==> f[c] == (cells[c] < 0)
  {
    seq(|cells|, c requires 0 <= c < |cells| => cells[c] < 0)
  }

  class TensorIndex {
    const names: seq<Name>
    const hash: Name -> nat
    var lg: nat
    var hidx: array<int>

    ghost predicate Holds(n: nat)
      reads this, hidx
    {
      && hidx.Length == Pow2(lg) && n <= |names|
      && Indexed(hidx[..], names, hash, lg, n)
      && Filled(FreeCells(hidx[..])) == n
    }

    ghost predicate Valid()
      reads this, hidx
    {
      Holds(|names|) && |names| < hidx.Length
    }

    // The end of st_init: a table at least twice as large as the list, filled in list order.
    constructor (names: seq<Name>, hash: Name -> nat)
      ensures Valid() && this.names == names && fresh(hidx)
    {
      this.names, this.hash := names, hash;
      var size, k := 1, 0;
      while size < 2 * |names|
        invariant size == Pow2(k)
      {
        size, k := 2 * size, k + 1;
      }
      lg := k;
      var cells := new int[size](_ => -1);
      hidx := cells;
      new;
      NoneFilled(FreeCells(hidx[..]));
      for i := 0 to |names|
        invariant Holds(i) && fresh(hidx) && hidx == cells && this.names == names && this.hash == hash && hidx.Length == size
      {
        Insert(i);
      }
    }

    // Puts tensor i into the first free cell behind its home.
    method Insert(i: nat)
      requires Holds(i) && i < |names| && i < hidx.Length
      modifies hidx
      ensures Holds(i + 1)
    {
      hide Indexed, At, Dist, Low, Filled;
      var h: nat := Low(hash(names[i]), lg);
      AtStart(h, hidx.Length);
      ghost var d := 0;
      ghost var gap := SomeFree(FreeCells(hidx[..]));
      ghost var far := Dist(h, gap, hidx.Length);
      ghost var start := h;
      ghost var t := hidx[..];
      while hidx[h] >= 0
        invariant hidx[..] == t
        invariant d <= far && h < hidx.Length && h == At(start, d, hidx.Length)
        invariant forall x :: 0 <= x < d ==> hidx[At(start, x, hidx.Length)] >= 0
        decreases far - d
      {
        StepOn(start, d, lg);
        h := Low(h + 1, lg);
        d := d + 1;
      }
      hidx[h] := i;
      Inserted(t, hidx[..], names, hash, lg, i, h, d);
    }

    // st_find: the same tensor as the first-match scan of the list, or none.
    method Find(name: Name) returns (r: Option<nat>)
      requires Valid()
      ensures var first := Scan(names, name, 0);
              r == if first < |names| then Some(first) else None
    {
      hide Indexed, At, Dist, Low, Filled, Scan;
      IndexedRange(hidx[..], names, hash, lg);
      var h: nat := Low(hash(name), lg);
      AtStart(h, hidx.Length);
      ghost var d := 0;
      ghost var gap := SomeFree(FreeCells(hidx[..]));
      ghost var far := Dist(h, gap, hidx.Length);
      ghost var start := h;
      while hidx[h] >= 0
        invariant d <= far && h < hidx.Length && h == At(start, d, hidx.Length)
        invariant forall x :: 0 <= x < d ==> hidx[At(start, x, hidx.Length)] >= 0 && names[hidx[At(start, x, hidx.Length)]] != name
        decreases far - d
      {
        if names[hidx[h]] == name {
          FirstOnProbe(hidx[..], names, hash, lg, name, d);
          return Some(hidx[h]);
        }
        StepOn(start, d, lg);
        h := Low(h + 1, lg);
        d := d + 1;
      }
      NoneOnProbe(hidx[..], names, hash, lg, name, d);
      r := None;
    }
  }

  lemma IndexedRange(t: seq<int>, names: seq<Name>, hash: Name -> nat, lg: nat)
    requires |t| == Pow2(lg) && Indexed(t, names, hash, lg, |names|)
    ensures forall c :: 0 <= c < |t| ==> -1 <= t[c] < |names|
  {
  }

  lemma Inserted(t: seq<int>, t2: seq<int>, names: seq<Name>, hash: Name -> nat, lg: nat, i: nat, h: nat, d: nat)
    requires |t| == Pow2(lg) && i < |names| && Indexed(t, names, hash, lg, i) && Filled(FreeCells(t)) == i
    requires h < |t| && d < |t| && h == At(Low(hash(names[i]), lg), d, |t|) && t[h] < 0 && t2 == t[h := i]
    requires forall x :: 0 <= x < d ==> t[At(Low(hash(names[i]), lg), x, |t|)] >= 0
    ensures Indexed(t2, names, hash, lg, i + 1) && Filled(FreeCells(t2)) == i + 1
  {
    FillOne(FreeCells(t), h);
    assert FreeCells(t2) == FreeCells(t)[h := false];
    DistOfAt(Low(hash(names[i]), lg), d, |t|);
    forall j | 0 <= j < i + 1
      ensures Has(t2, j)
    {
      if j == i {
        assert t2[h] == j;
      } else {
        assert Has(t, j);
        var c :| 0 <= c < |t| && t[c] == j;
        assert t2[c] == j;
      }
    }
    assert forall x :: 0 <= x < d ==> 0 <= t[At(Low(hash(names[i]), lg), x, |t|)] < i;
  }

  // The first cell on a name's probe that holds a tensor of that name holds the first of them.
  lemma FirstOnProbe(t: seq<int>, names: seq<Name>, hash: Name -> nat, lg: nat, name: Name, d: nat)
    requires |t| == Pow2(lg) && Indexed(t, names, hash, lg, |names|) && d < |t|
    requires t[At(Low(hash(name), lg), d, |t|)] >= 0 && names[t[At(Low(hash(name), lg), d, |t|)]] == name
    requires forall x :: 0 <= x < d ==> t[At(Low(hash(name), lg), x, |t|)] >= 0 && names[t[At(Low(hash(name), lg), x, |t|)]] != name
    ensures Scan(names, name, 0) == t[At(Low(hash(name), lg), d, |t|)]
  {
    hide At, Dist, Low, Scan;
    var h := Low(hash(name), lg);
    var i := t[At(h, d, |t|)];
    var first := Scan(names, name, 0);
    ScanFirst(names, name, i);
    assert Has(t, first);
    var c :| 0 <= c < |t| && t[c] == first;
    var far := Dist(h, c, |t|);
    assert At(h, far, |t|) == c;
    assert far <= d;
  }

  lemma ScanFirst(names: seq<Name>, name: Name, i: nat)
    requires i < |names| && names[i] == name
    ensures Scan(names, name, 0) <= i && names[Scan(names, name, 0)] == name
  {
  }

  // A probe that ends on a free cell without meeting the name means no tensor has it.
  lemma NoneOnProbe(t: seq<int>, names: seq<Name>, hash: Name -> nat, lg: nat, name: Name, d: nat)
    requires |t| == Pow2(lg) && Indexed(t, names, hash, lg, |names|) && d < |t|
    requires t[At(Low(hash(name), lg), d, |t|)] < 0
    requires forall x :: 0 <= x < d ==> t[At(Low(hash(name), lg), x, |t|)] >= 0 && names[t[At(Low(hash(name), lg), x, |t|)]] != name
    ensures Scan(names, name, 0) == |names|
  {
    forall i | 0 <= i < |names|
      ensures names[i] != name
    {
      assert Has(t, i);
      var c :| 0 <= c < |t| && t[c] == i;
      IndexGap(t, names, hash, lg, c, d);
    }
  }

  lemma IndexGap(t: seq<int>, names: seq<Name>, hash: Name -> nat, lg: nat, c: nat, d: nat)
    requires |t| == Pow2(lg) && Indexed(t, names, hash, lg, |names|) && c < |t| && d < |t| && t[c] >= 0
    ensures t[At(Low(hash(names[t[c]]), lg), d, |t|)] < 0 ==>
              Dist(Low(hash(names[t[c]]), lg), c, |t|) < d && At(Low(hash(names[t[c]]), lg), Dist(Low(hash(names[t[c]]), lg), c, |t|), |t|) == c
  {
  }
}
