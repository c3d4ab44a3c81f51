/** Speculative decoding in c/glm.c. The network is an abstract causal function: the KV row of a
    position is a function of the rows before it and its token, and the logits after a position
    are a function of the rows up to it. */
module Speculation {

  datatype Net<!R, !L> = Net(row: (seq<R>, int) -> R, logits: seq<R> -> L, argmax: L -> int)

  // The KV rows of a history.
  ghost function Rows<R, L>(net: Net<R, L>, h: seq<int>): (r: seq<R>)
    ensures |r| == |h|
  {
    if h == [] then [] else
      var before := Rows(net, h[..|h| - 1]);
      before + [net.row(before, h[|h| - 1])]
  }

  ghost function Logits<R, L>(net: Net<R, L>, h: seq<int>): L {
    net.logits(Rows(net, h))
  }

  // Plain greedy decoding: one token at a time, up to n of them, cut before the first stop token.
  ghost function Greedy<R, L>(net: Net<R, L>, stops: set<int>, h: seq<int>, n: nat): (out: seq<int>)
    ensures |out| <= n
    decreases n
  {
    if n == 0 then [] else
      var t := net.argmax(Logits(net, h));
      if t in stops then [] else [t] + Greedy(net, stops, h + [t], n - 1)
  }

  // Continuing a greedy reply greedily follows the single greedy sequence, whether the first part
  // was cut or stopped by itself.
  lemma {:induction false} GreedyContinues<R, L>(net: Net<R, L>, stops: set<int>, h: seq<int>, n: nat, m: nat)
    ensures Greedy(net, stops, h, n) + Greedy(net, stops, h + Greedy(net, stops, h, n), m) == Greedy(net, stops, h, n + m)
    decreases n
  {
    hide Logits;
    if n == 0 {
      assert h + [] == h;
    } else {
      var t := net.argmax(Logits(net, h));
      if t in stops {
        assert h + [] == h;
      } else {
        GreedyContinues(net, stops, h + [t], n - 1, m);
        var rest := Greedy(net, stops, h + [t], n - 1);
        assert h + ([t] + rest) == (h + [t]) + rest;
      }
    }
  }

  // A greedy reply shorter than allowed ends before a stop token.
  lemma {:induction false} GreedyStops<R, L>(net: Net<R, L>, stops: set<int>, h: seq<int>, n: nat)
    ensures |Greedy(net, stops, h, n)| < n ==> net.argmax(Logits(net, h + Greedy(net, stops, h, n))) in stops
    ensures forall t :: t in Greedy(net, stops, h, n) ==> t !in stops
    decreases n
  {
    hide Logits;
    var out := Greedy(net, stops, h, n);
    if out == [] {
      assert h + [] == h;
    } else {
      GreedyStops(net, stops, h + [out[0]], n - 1);
      assert (h + [out[0]]) + out[1..] == h + out;
    }
  }

  // Rows of a history are a prefix of the rows of any longer one: rows never change once written.
  lemma {:induction false} RowsPrefix<R, L>(net: Net<R, L>, h: seq<int>, n: nat)
    requires n <= |h|
    ensures Rows(net, h)[..n] == Rows(net, h[..n])
    decreases |h|
  {
    if n < |h| {
      var p := h[..|h| - 1];
      RowsPrefix(net, p, n);
      assert p[..n] == h[..n];
      assert Rows(net, h)[..n] == Rows(net, p)[..n];
    } else {
      assert h[..n] == h && Rows(net, h)[..n] == Rows(net, h);
    }
  }

  lemma RowsSnoc<R, L>(net: Net<R, L>, h: seq<int>, t: int)
    ensures Rows(net, h + [t]) == Rows(net, h) + [net.row(Rows(net, h), t)]
  {
    assert (h + [t])[..|h|] == h;
  }

  // ---- the KV cache ----

  class KVState<R> {
    var rows: seq<R>

    constructor (rows: seq<R>)
      ensures this.rows == rows
    {
      this.rows := rows;
    }
  }

  // The first |h| rows are those of h: none is stale.
  ghost predicate Fresh<R, L>(net: Net<R, L>, rows: seq<R>, h: seq<int>) {
    |h| <= |rows| && rows[..|h|] == Rows(net, h)
  }

  lemma FreshPrefix<R, L>(net: Net<R, L>, rows: seq<R>, h: seq<int>, n: nat)
    requires Fresh(net, rows, h) && n <= |h|
    ensures Fresh(net, rows, h[..n])
  {
    RowsPrefix(net, h, n);
    assert rows[..n] == rows[..|h|][..n];
  }

  lemma FreshWrite<R, L>(net: Net<R, L>, rows: seq<R>, h: seq<int>, t: int)
    requires Fresh(net, rows, h) && |h| < |rows|
    ensures Fresh(net, rows[|h| := net.row(rows[..|h|], t)], h + [t])
    ensures rows[|h| := net.row(rows[..|h|], t)][..|h| + 1] == Rows(net, h + [t])
  {
    RowsSnoc(net, h, t);
    var next := rows[|h| := net.row(rows[..|h|], t)];
    assert next[..|h| + 1] == rows[..|h|] + [next[|h|]];
  }

  // step_all: forwards ids at positions pos, pos + 1, ...; every row is computed from the rows
  // before it and written; the logits of every position come back.
  method StepAll<R, L>(net: Net<R, L>, kv: KVState<R>, ids: seq<int>, pos: nat, ghost h: seq<int>) returns (lo: seq<L>)
    requires |h| == pos && pos + |ids| <= |kv.rows| && Fresh(net, kv.rows, h)
    modifies kv
    ensures |kv.rows| == |old(kv.rows)| && Fresh(net, kv.rows, h + ids)
    ensures |lo| == |ids| && forall i :: 0 <= i < |ids| ==> lo[i] == Logits(net, h + ids[..i + 1])
  {
    hide Rows;
    lo := [];
    assert h + ids[..0] == h;
    for i := 0 to |ids|
      invariant |kv.rows| == |old(kv.rows)| && Fresh(net, kv.rows, h + ids[..i])
      invariant |lo| == i && forall j :: 0 <= j < i ==> lo[j] == Logits(net, h + ids[..j + 1])
    {
      assert (h + ids[..i]) + [ids[i]] == h + ids[..i + 1];
      FreshWrite(net, kv.rows, h + ids[..i], ids[i]);
      kv.rows := kv.rows[pos + i := net.row(kv.rows[..pos + i], ids[i])];
      lo := lo + [net.logits(kv.rows[..pos + i + 1])];
    }
    assert ids[..|ids|] == ids;
  }

  // step: the same, keeping only the last position's logits.
  method Step<R, L>(net: Net<R, L>, kv: KVState<R>, ids: seq<int>, pos: nat, ghost h: seq<int>) returns (logit: L)
    requires ids != [] && |h| == pos && pos + |ids| <= |kv.rows| && Fresh(net, kv.rows, h)
    modifies kv
    ensures |kv.rows| == |old(kv.rows)| && Fresh(net, kv.rows, h + ids) && logit == Logits(net, h + ids)
  {
    var lo := StepAll(net, kv, ids, pos, h);
    assert ids[..|ids|] == ids;
    logit := lo[|ids| - 1];
  }

  // ---- speculation ----

  const MAX_DRAFT := 63

  // Everything the decoder does not control: what the draft sources propose, what the sampler
  // picks, and whether it accepts a draft. Each is any function of the round, and of the draft's
  // place in it; a pick may not be the token banned for it, -1 for none.
  datatype Source = Source(draft: nat -> seq<int>, pick: (nat, int) -> int, accept: (nat, nat) -> bool)

  // How the drafts of a round end: none left, or no room for more; the next one rejected; or the
  // next one accepted, and a stop token.
  datatype End = Exhausted | Rejected | Stopped

  // What becomes of a round's drafts: the first k are emitted behind its pick.
  datatype Verdict = Verdict(k: nat, end: End)

  // The token banned for the pick of round r: the draft the round before rejected.
  ghost function Ban(src: Source, ts: seq<Verdict>, r: nat): int
    requires r <= |ts|
  {
    if r > 0 && ts[r - 1].end.Rejected? && ts[r - 1].k < |src.draft(r - 1)| then src.draft(r - 1)[ts[r - 1].k] else -1
  }

  // What the first r rounds emit.
  ghost function Spoken(src: Source, ts: seq<Verdict>, r: nat): seq<int>
    requires r <= |ts| && forall i: nat :: i < |ts| ==> ts[i].k <= |src.draft(i)|
  {
    if r == 0 then []
    else Spoken(src, ts, r - 1) + [src.pick(r - 1, Ban(src, ts, r - 1))] + src.draft(r - 1)[..ts[r - 1].k]
  }

  // Round r is what the sampler makes of it: its pick is no stop token, all its drafts were accepted
  // and are none, and they end for a reason. It may not go beyond n tokens, 63 drafts, or the rows
  // of the cache, of which base were in use before the first round.
  ghost predicate Sampled(src: Source, stops: set<int>, n: nat, base: nat, rows: nat, ts: seq<Verdict>, r: nat)
    requires r < |ts| && forall i: nat :: i < |ts| ==> ts[i].k <= |src.draft(i)|
  {
    var d, k := src.draft(r), ts[r].k;
    && src.pick(r, Ban(src, ts, r)) !in stops
    && (forall i :: 0 <= i < k ==> src.accept(r, i) && d[i] !in stops)
    && match ts[r].end
       case Rejected => k < |d| && !src.accept(r, k)
       case Stopped => k < |d| && src.accept(r, k) && d[k] in stops
       case Exhausted =>
         var spoken := |Spoken(src, ts, r + 1)|;
         k == |d| || k == 63 || spoken == n || base + spoken + 1 >= rows
  }

  // The sampled reply: rounds one after another, until n tokens have been emitted, a draft that is a
  // stop token is accepted, or a pick is one.
  ghost predicate SampledRun(src: Source, stops: set<int>, n: nat, base: nat, rows: nat, out: seq<int>, ts: seq<Verdict>) {
    && (forall i: nat :: i < |ts| ==> ts[i].k <= |src.draft(i)|)
    && (forall r: nat :: r < |ts| ==> Sampled(src, stops, n, base, rows, ts, r))
    && (forall r: nat :: r + 1 < |ts| ==> !ts[r].end.Stopped?)
    && out == Spoken(src, ts, |ts|) && |out| <= n
    && (|out| == n || (ts != [] && ts[|ts| - 1].end.Stopped?) || src.pick(|ts|, Ban(src, ts, |ts|)) in stops)
  }

  // The same of a reply that is still going on, and may go on.
  ghost predicate Sampling(src: Source, stops: set<int>, n: nat, base: nat, rows: nat, out: seq<int>, ts: seq<Verdict>) {
    && (forall i: nat :: i < |ts| ==> ts[i].k <= |src.draft(i)|)
    && (forall r: nat :: r < |ts| ==> Sampled(src, stops, n, base, rows, ts, r) && !ts[r].end.Stopped?)
    && out == Spoken(src, ts, |ts|)
  }

  // What becomes of the drafts of round r, of which the first spoken tokens of the reply, its own
  // included, have been emitted with it.
  ghost predicate Drafted(src: Source, stops: set<int>, n: nat, base: nat, rows: nat, r: nat, spoken: nat, t: Verdict) {
    var d := src.draft(r);
    && t.k <= |d| && (forall i :: 0 <= i < t.k ==> src.accept(r, i) && d[i] !in stops)
    && match t.end
       case Rejected => t.k < |d| && !src.accept(r, t.k)
       case Stopped => t.k < |d| && src.accept(r, t.k) && d[t.k] in stops
       case Exhausted => t.k == |d| || t.k == 63 || spoken == n || base + spoken + 1 >= rows
  }

  lemma {:induction false} SpokenEarlier(src: Source, ts: seq<Verdict>, t: Verdict, r: nat)
    requires r <= |ts| && t.k <= |src.draft(|ts|)| && forall i: nat :: i < |ts| ==> ts[i].k <= |src.draft(i)|
    ensures Spoken(src, ts + [t], r) == Spoken(src, ts, r) && Ban(src, ts + [t], r) == Ban(src, ts, r)
  {
    if r > 0 {
      SpokenEarlier(src, ts, t, r - 1);
    }
  }

  // One round more.
  lemma SampledMore(src: Source, stops: set<int>, n: nat, base: nat, rows: nat, out: seq<int>, ts: seq<Verdict>, t: Verdict, next: int)
    requires Sampling(src, stops, n, base, rows, out, ts)
    requires next == src.pick(|ts|, Ban(src, ts, |ts|)) && next !in stops && t.k <= |src.draft(|ts|)|
    requires Drafted(src, stops, n, base, rows, |ts|, |out| + 1 + t.k, t)
    ensures var more := out + [next] + src.draft(|ts|)[..t.k];
            && (!t.end.Stopped? ==> Sampling(src, stops, n, base, rows, more, ts + [t]))
            && (t.end.Stopped? || |more| == n ==> |more| <= n ==> SampledRun(src, stops, n, base, rows, more, ts + [t]))
    ensures Ban(src, ts + [t], |ts| + 1) == if t.end.Rejected? then src.draft(|ts|)[t.k] else -1
  {
    hide Spoken, Ban;
    var us := ts + [t];
    SpokenNext(src, ts, t);
    forall r: nat | r < |us|
      ensures us[r].k <= |src.draft(r)| && (r < |ts| ==> us[r] == ts[r])
    {
    }
    forall r: nat | r < |us|
      ensures Sampled(src, stops, n, base, rows, us, r)
    {
      SpokenEarlier(src, ts, t, if r < |ts| then r + 1 else r);
      if r < |ts| {
        SpokenEarlier(src, ts, t, r);
        assert Sampled(src, stops, n, base, rows, ts, r);
      }
    }
  }

  lemma SpokenNext(src: Source, ts: seq<Verdict>, t: Verdict)
    requires t.k <= |src.draft(|ts|)| && forall i: nat :: i < |ts| ==> ts[i].k <= |src.draft(i)|
    ensures Spoken(src, ts + [t], |ts| + 1)
         == Spoken(src, ts, |ts|) + [src.pick(|ts|, Ban(src, ts, |ts|))] + src.draft(|ts|)[..t.k]
    ensures Ban(src, ts + [t], |ts| + 1) == if t.end.Rejected? && t.k < |src.draft(|ts|)| then src.draft(|ts|)[t.k] else -1
  {
    SpokenEarlier(src, ts, t, |ts|);
  }

  function Capped(d: seq<int>, cap: int): (c: seq<int>)
    ensures c <= d && (cap < 0 ==> c == [])
    ensures cap >= 0 ==> |c| <= cap && |c| <= 63 && (|c| == |d| || |c| == 63 || |c| == cap)
  {
    var n := if |d| > MAX_DRAFT then MAX_DRAFT else |d|;
    if cap < 0 then [] else if n > cap then d[..cap] else d[..n]
  }

  // The state between forwards: out has been emitted after h, all of it is in the cache, and logit
  // belongs to the last position.
  ghost predicate Synced<R, L>(net: Net<R, L>, rows: seq<R>, all: seq<int>, h: seq<int>, out: seq<int>, logit: L) {
    && |h| + |out| <= |all| && all[..|h| + |out|] == h + out
    && Fresh(net, rows, h + out) && logit == Logits(net, h + out)
  }

  // Nothing emitted so far deviates from plain greedy decoding.
  ghost predicate OnCourse<R, L>(net: Net<R, L>, stops: set<int>, h: seq<int>, n: nat, out: seq<int>) {
    |out| <= n && Greedy(net, stops, h, n) == out + Greedy(net, stops, h + out, n - |out|)
  }

  lemma OnCoursePick<R, L>(net: Net<R, L>, stops: set<int>, h: seq<int>, n: nat, out: seq<int>)
    requires OnCourse(net, stops, h, n, out) && |out| < n
    ensures var t := net.argmax(Logits(net, h + out));
            if t in stops then Greedy(net, stops, h, n) == out else OnCourse(net, stops, h, n, out + [t])
  {
    hide Logits;
    var t := net.argmax(Logits(net, h + out));
    if t !in stops {
      assert (h + out) + [t] == h + (out + [t]);
      assert out + ([t] + Greedy(net, stops, h + (out + [t]), n - |out| - 1)) ==
             (out + [t]) + Greedy(net, stops, h + (out + [t]), n - |out| - 1);
    } else {
      assert out + [] == out;
    }
  }

  // Which of the drafts the verification accepts, and how it ends.
  method Verify<R, L>(net: Net<R, L>, stops: set<int>, greedy: bool, src: Source, round: nat, lo: seq<L>, draft: seq<int>,
                      room: nat, all: array<int>, at: nat, ghost h: seq<int>, ghost out: seq<int>, ghost n: nat)
      returns (k: nat, done: bool)
    requires |draft| <= room && at + |draft| <= all.Length && |lo| == |draft| + 1 && at == |h| + |out|
    requires all[..at] == h + out && n == |out| + room
    requires forall i :: 0 <= i <= |draft| ==> lo[i] == Logits(net, h + out + draft[..i])
    requires greedy ==> OnCourse(net, stops, h, n, out)
    requires forall t :: t in out ==> t !in stops
    modifies all
    ensures k <= |draft| && all[..at + k] == h + out + draft[..k]
    ensures done ==> k < |draft| && draft[k] in stops
    ensures !greedy ==> forall i :: 0 <= i < k ==> src.accept(round, i) && draft[i] !in stops
    ensures !greedy && k < |draft| ==> (done <==> src.accept(round, k))
    ensures forall t :: t in out + draft[..k] ==> t !in stops
    ensures greedy ==> OnCourse(net, stops, h, n, out + draft[..k])
    ensures greedy && done ==> Greedy(net, stops, h, n) == out + draft[..k]
  {
    hide Logits, OnCourse, Greedy;
    k, done := 0, false;
    assert out + draft[..0] == out && h + out + draft[..0] == h + out;
    while k < |draft|
      invariant k <= |draft| && all[..at + k] == h + out + draft[..k]
      invariant forall t :: t in out + draft[..k] ==> t !in stops
      invariant !greedy ==> forall i :: 0 <= i < k ==> src.accept(round, i) && draft[i] !in stops
      invariant greedy ==> OnCourse(net, stops, h, n, out + draft[..k])
    {
      var accept := if greedy then net.argmax(lo[k]) == draft[k] else src.accept(round, k);
      if !accept {
        break;
      }
      assert h + out + draft[..k] == h + (out + draft[..k]);
      if greedy {
        OnCoursePick(net, stops, h, n, out + draft[..k]);
      }
      if draft[k] in stops {
        done := true;
        break;
      }
      assert out + draft[..k] + [draft[k]] == out + draft[..k + 1];
      assert h + out + draft[..k] + [draft[k]] == h + out + draft[..k + 1];
      all[at + k] := draft[k];
      assert all[..at + k + 1] == all[..at + k] + [draft[k]];
      k := k + 1;
    }
  }

  // One forward: next is in place at all[at] but not cached; drafts are proposed, forwarded with
  // it, and verified.
  method Round<R, L>(net: Net<R, L>, kv: KVState<R>, all: array<int>, at: nat, next: int, room: nat, stops: set<int>,
                     greedy: bool, src: Source, round: nat, ghost h: seq<int>, ghost was: seq<int>, ghost n: nat)
      returns (draft: seq<int>, k: nat, done: bool, logit: L, ghost t: Verdict)
    requires at == |h| + |was| && 0 < room && at + 1 + room <= all.Length && at + 1 + room <= |kv.rows|
    requires all[..at + 1] == h + (was + [next]) && Fresh(net, kv.rows, h + was) && n == |was| + 1 + room
    requires greedy ==> OnCourse(net, stops, h, n, was + [next])
    requires forall t :: t in was + [next] ==> t !in stops
    modifies kv, all
    ensures k <= |draft| <= room && |kv.rows| == |old(kv.rows)|
    ensures Synced(net, kv.rows, all[..], h, was + [next] + draft[..k], logit)
    ensures forall t :: t in was + [next] + draft[..k] ==> t !in stops
    ensures greedy ==> OnCourse(net, stops, h, n, was + [next] + draft[..k])
    ensures greedy && done ==> Greedy(net, stops, h, n) == was + [next] + draft[..k]
    ensures draft <= src.draft(round) && t.k == k && (t.end.Rejected? <==> k < |draft| && !done) && (done <==> t.end.Stopped?)
    ensures !greedy ==> Drafted(src, stops, n, |h|, |kv.rows|, round, |was| + 1 + k, t)
  {
    hide Rows, Logits, Greedy, OnCourse, Fresh;
    // Clamps: never more drafts than tokens left to emit or rows left in the cache.
    draft := Capped(src.draft(round), room);
    if at + 1 + |draft| + 1 > |kv.rows| {
      draft := Capped(draft, |kv.rows| - at - 2);
    }
    ghost var out := was + [next];
    assert h + was + [next] == h + out;
    var lo := StepAll(net, kv, [next] + draft, at, h + was);
    BatchLogits(net, h + was, next, draft, lo);
    assert draft <= src.draft(round);
    k, done := Verify(net, stops, greedy, src, round, lo, draft, room, all, at + 1, h, out, n);
    assert h + was + ([next] + draft) == h + out + draft;
    Accepted(net, kv.rows, h + out, draft, k);
    assert h + out + draft[..k] == h + (out + draft[..k]);
    assert all[..][..at + 1 + k] == all[..at + 1 + k];
    logit := lo[k];
    t := Verdict(k, if k == |draft| then Exhausted else if done then Stopped else Rejected);
  }

  // spec_decode: emits up to nNew tokens after the kv0 tokens already cached.
  method SpecDecode<R, L>(net: Net<R, L>, kv: KVState<R>, all: array<int>, kv0: nat, nNew: nat, stops: set<int>,
                          greedy: bool, src: Source, logit0: L)
      returns (out: seq<int>, kvOut: nat, truncated: bool, ghost ts: seq<Verdict>)
    requires kv0 + nNew <= all.Length && kv0 + nNew <= |kv.rows|
    requires Synced(net, kv.rows, all[..], all[..kv0], [], logit0)
    modifies kv, all
    ensures |out| <= nNew && (forall t :: t in out ==> t !in stops) && |kv.rows| == |old(kv.rows)|
    ensures all[..kv0 + |out|] == old(all[..kv0]) + out
    ensures kvOut + (if truncated then 1 else 0) == kv0 + |out| && (truncated ==> 0 < |out| == nNew)
    ensures Fresh(net, kv.rows, all[..kvOut])
    ensures greedy ==> out == Greedy(net, stops, old(all[..kv0]), nNew)
    ensures !greedy ==> SampledRun(src, stops, nNew, kv0, |kv.rows|, out, ts)
  {
    hide Rows, Logits, Greedy, OnCourse, Fresh, Sampling, SampledRun, Drafted, Ban;
    ghost var h := all[..kv0];
    out, truncated, ts := [], false, [];
    var at, done, logit, round, ban := kv0, false, logit0, 0, -1;
    StartSampling(src, stops, nNew, kv0, |kv.rows|);
    assert h + out == h;
    StartOnCourse(net, stops, h, nNew);
    while |out| < nNew && !done
      invariant |h| == kv0 && at == kv0 + |out| && |out| <= nNew && |kv.rows| == |old(kv.rows)|
      invariant Synced(net, kv.rows, all[..], h, out, logit)
      invariant forall t :: t in out ==> t !in stops
      invariant greedy ==> OnCourse(net, stops, h, nNew, out)
      invariant greedy && done ==> Greedy(net, stops, h, nNew) == out
      invariant round == |ts|
      invariant !greedy && !done ==> ban == Ban(src, ts, round) && Sampling(src, stops, nNew, kv0, |kv.rows|, out, ts)
      invariant !greedy && done ==> SampledRun(src, stops, nNew, kv0, |kv.rows|, out, ts)
      decreases nNew - |out|, !done
    {
      var next := if greedy then net.argmax(logit) else src.pick(round, ban);
      if greedy {
        OnCoursePick(net, stops, h, nNew, out);
      }
      if next in stops {
        done := true;
        PickStops(src, stops, nNew, kv0, |kv.rows|, out, ts, greedy);
        break;
      }
      ghost var said := out;
      all[at] := next;
      out := out + [next];
      assert all[..at + 1] == all[..at] + [next];
      if |out| >= nNew {
        truncated := true;
        AllGreedy(net, stops, h, nNew, out, greedy);
        CacheWithout(net, kv.rows, all[..], h, out, at);
        kvOut := at;
        if !greedy {
          LastPick(src, stops, nNew, kv0, |kv.rows|, said, ts, next);
        }
        ts := ts + [Verdict(0, Exhausted)];
        return;
      }
      ghost var was := out[..|out| - 1];
      assert out == was + [next] && h + was + [next] == h + out;
      var draft, k;
      ghost var t;
      draft, k, done, logit, t := Round(net, kv, all, at, next, nNew - |out|, stops, greedy, src, round, h, was, nNew);
      ban := if !greedy && k < |draft| && !done then draft[k] else -1;
      if !greedy {
        SampledMore(src, stops, nNew, kv0, |kv.rows|, said, ts, t, next);
        assert draft[..k] == src.draft(round)[..k];
      }
      out := out + draft[..k];
      at := at + 1 + k;
      round := round + 1;
      ts := ts + [t];
    }
    if !done && !greedy {
      EnoughSaid(src, stops, nNew, kv0, |kv.rows|, out, ts);
    }
    if !done {
      AllGreedy(net, stops, h, nNew, out, greedy);
    }
    kvOut := at;
    assert all[..][..at] == all[..at];
  }

  lemma StartSampling(src: Source, stops: set<int>, n: nat, base: nat, rows: nat)
    ensures Sampling(src, stops, n, base, rows, [], []) && Ban(src, [], 0) == -1
  {
  }

  // The reply ends before a pick that is a stop token.
  lemma PickStops(src: Source, stops: set<int>, n: nat, base: nat, rows: nat, out: seq<int>, ts: seq<Verdict>, greedy: bool)
    requires !greedy ==> Sampling(src, stops, n, base, rows, out, ts) && |out| <= n && src.pick(|ts|, Ban(src, ts, |ts|)) in stops
    ensures !greedy ==> SampledRun(src, stops, n, base, rows, out, ts)
  {
  }

  // The reply ends with a pick that is the last token wanted.
  lemma LastPick(src: Source, stops: set<int>, n: nat, base: nat, rows: nat, out: seq<int>, ts: seq<Verdict>, next: int)
    requires Sampling(src, stops, n, base, rows, out, ts) && |out| + 1 == n
    requires next == src.pick(|ts|, Ban(src, ts, |ts|)) && next !in stops
    ensures SampledRun(src, stops, n, base, rows, out + [next], ts + [Verdict(0, Exhausted)])
  {
    hide Sampling, SampledRun, Ban;
    SampledMore(src, stops, n, base, rows, out, ts, Verdict(0, Exhausted), next);
    assert out + [next] + [] == out + [next];
  }

  lemma EnoughSaid(src: Source, stops: set<int>, n: nat, base: nat, rows: nat, out: seq<int>, ts: seq<Verdict>)
    requires Sampling(src, stops, n, base, rows, out, ts) && |out| == n
    ensures SampledRun(src, stops, n, base, rows, out, ts)
  {
  }

  lemma StartOnCourse<R, L>(net: Net<R, L>, stops: set<int>, h: seq<int>, n: nat)
    ensures OnCourse(net, stops, h, n, [])
  {
    assert h + [] == h;
  }

  lemma AllGreedy<R, L>(net: Net<R, L>, stops: set<int>, h: seq<int>, n: nat, out: seq<int>, greedy: bool)
    requires |out| == n && (greedy ==> OnCourse(net, stops, h, n, out))
    ensures greedy ==> out == Greedy(net, stops, h, n)
  {
    if greedy {
      assert out + [] == out;
    }
  }

  // Without its last token, which was never forwarded, what was emitted is cached.
  lemma CacheWithout<R, L>(net: Net<R, L>, rows: seq<R>, all: seq<int>, h: seq<int>, out: seq<int>, at: nat)
    requires out != [] && at == |h| + |out| - 1 && at < |all| && all[..at + 1] == h + out
    requires Fresh(net, rows, h + out[..|out| - 1])
    ensures Fresh(net, rows, all[..at])
  {
    assert all[..at] == all[..at + 1][..at] == h + out[..|out| - 1];
  }

  lemma BatchLogits<R, L>(net: Net<R, L>, h: seq<int>, next: int, draft: seq<int>, lo: seq<L>)
    requires |lo| == |draft| + 1
    requires forall i :: 0 <= i < |lo| ==> lo[i] == Logits(net, h + ([next] + draft)[..i + 1])
    ensures forall i :: 0 <= i <= |draft| ==> lo[i] == Logits(net, h + [next] + draft[..i])
  {
    hide Logits;
    forall i | 0 <= i <= |draft|
      ensures lo[i] == Logits(net, h + [next] + draft[..i])
    {
      assert h + ([next] + draft)[..i + 1] == h + [next] + draft[..i];
    }
  }

  // Rows of rejected drafts are left behind the accepted ones.
  lemma Accepted<R, L>(net: Net<R, L>, rows: seq<R>, h: seq<int>, draft: seq<int>, k: nat)
    requires Fresh(net, rows, h + draft) && k <= |draft|
    ensures Fresh(net, rows, h + draft[..k])
  {
    FreshPrefix(net, rows, h + draft, |h| + k);
    assert (h + draft)[..|h| + k] == h + draft[..k];
  }
}
