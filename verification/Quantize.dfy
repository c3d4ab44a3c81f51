/** codec_quantize_freqs of c/codec_row.h: a histogram scaled to sum exactly to m, every symbol
    that occurs kept at least 1. The double-precision rounding is modelled exactly on rationals. */
module Quantize {
  import opened Arith

  function Sum(a: seq<nat>, k: nat): nat
    requires k <= |a|
  {
    if k == 0 then 0 else Sum(a, k - 1) + a[k - 1]
  }

  lemma {:induction false} SumMono(a: seq<nat>, j: nat, k: nat)
    requires j <= k <= |a|
    ensures Sum(a, j) <= Sum(a, k)
  {
    if j < k {
      SumMono(a, j, k - 1);
    }
  }

  lemma {:induction false} SumUpdate(a: seq<nat>, i: nat, v: nat, k: nat)
    requires i < |a| && k <= |a|
    ensures Sum(a[i := v], k) == Sum(a, k) + (if i < k then v - a[i] else 0)
  {
    if k > 0 {
      SumUpdate(a, i, v, k - 1);
    }
  }

  lemma {:induction false} SumAtMostOne(a: seq<nat>, k: nat)
    requires k <= |a| && forall s :: 0 <= s < k ==> a[s] <= 1
    ensures Sum(a, k) <= k
  {
    if k > 0 {
      SumAtMostOne(a, k - 1);
    }
  }

  lemma {:induction false} SumZero(a: seq<nat>, k: nat)
    requires k <= |a|
    ensures Sum(a, k) == 0 <==> forall s :: 0 <= s < k ==> a[s] == 0
  {
    if k > 0 {
      SumZero(a, k - 1);
    }
  }

  // m * c / total rounded to nearest, at least 1.
  function Rounded(c: nat, total: nat, m: nat): (f: nat)
    requires total > 0
    ensures f >= 1
  {
    assert 2 * (m * c) + total >= 0;
    var f := (2 * (m * c) + total) / (2 * total);
    if f < 1 then 1 else f
  }

  // Rounding moves a frequency by at most one half, or up to 1.
  lemma RoundedBounds(c: nat, total: nat, m: nat)
    requires total > 0
    ensures 2 * (m * c) - total <= 2 * (total * Rounded(c, total, m)) <= 2 * (m * c) + 2 * total
    ensures if 2 * (m * c) >= total then 2 * (total * Rounded(c, total, m)) <= 2 * (m * c) + total else Rounded(c, total, m) == 1
  {
    var x, d := 2 * (m * c) + total, 2 * total;
    var q := x / d;
    assert x == d * q + x % d;
    assert d * q == 2 * (total * q);
    if q < 1 {
      assert q <= 0;
      assert d * q <= 0;
      assert total * 1 == total;
    }
  }

  // The frequencies after rounding the first k symbols.
  ghost predicate RoundedTo(counts: seq<nat>, freqs: seq<nat>, total: nat, m: nat, k: nat)
    requires total > 0 && k <= |counts|
  {
    && |freqs| == |counts|
    && forall s :: 0 <= s < |counts| ==>
         freqs[s] == if s < k && counts[s] > 0 then Rounded(counts[s], total, m) else 0
  }

  lemma {:induction false} RoundedSum(counts: seq<nat>, freqs: seq<nat>, total: nat, m: nat, k: nat)
    requires total > 0 && k <= |counts| && RoundedTo(counts, freqs, total, m, |counts|)
    ensures 2 * (m * Sum(counts, k)) - total * k <= 2 * (total * Sum(freqs, k))
         <= 2 * (m * Sum(counts, k)) + 2 * (total * k)
  {
    if k == 0 {
      assert m * 0 == 0 && total * 0 == 0;
    } else {
      RoundedSum(counts, freqs, total, m, k - 1);
      var c, f := counts[k - 1], freqs[k - 1];
      if c > 0 {
        RoundedBounds(c, total, m);
      } else {
        assert m * c == 0 && total * f == 0;
      }
      RoundedStep(total, m, Sum(freqs, k - 1), Sum(counts, k - 1), f, c, k - 1);
    }
  }

  lemma RoundedStep(total: nat, m: nat, s: nat, t: nat, f: nat, c: nat, k: nat)
    requires 2 * (m * t) - total * k <= 2 * (total * s) <= 2 * (m * t) + 2 * (total * k)
    requires 2 * (m * c) - total <= 2 * (total * f) <= 2 * (m * c) + 2 * total
    ensures 2 * (m * (t + c)) - total * (k + 1) <= 2 * (total * (s + f))
         <= 2 * (m * (t + c)) + 2 * (total * (k + 1))
  {
    Distribute(m, t, c);
    Distribute(total, s, f);
    Distribute(total, k, 1);
  }

  // Rounding misses m by at most the number of symbols.
  lemma RoundedNear(counts: seq<nat>, freqs: seq<nat>, m: nat)
    requires Sum(counts, |counts|) > 0
    requires RoundedTo(counts, freqs, Sum(counts, |counts|), m, |counts|)
    ensures m - |counts| <= Sum(freqs, |freqs|) <= m + |counts|
  {
    var t, n := Sum(counts, |counts|), |counts|;
    RoundedSum(counts, freqs, t, m, n);
    Near(t, m, n, Sum(freqs, n));
  }

  lemma Near(t: nat, m: nat, n: nat, s: nat)
    requires t > 0 && 2 * (m * t) - t * n <= 2 * (t * s) <= 2 * (m * t) + 2 * (t * n)
    ensures m - n <= s <= m + n
  {
    Distribute(t, m, n);
    assert t * n >= 0;
    CancelLe(t, s, m + n);
    CancelLe(t, m - n, s);
  }

  // The position of the largest frequency from a on, the earliest on ties.
  method FindLargest(freqs: seq<nat>, order: seq<nat>, a: nat) returns (best: nat)
    requires a < |order| && forall i :: 0 <= i < |order| ==> order[i] < |freqs|
    ensures a <= best < |order|
    ensures forall j :: a <= j < |order| ==> freqs[order[best]] >= freqs[order[j]]
  {
    best := a;
    for b := a + 1 to |order|
      invariant a <= best < b
      invariant forall j :: a <= j < b ==> freqs[order[best]] >= freqs[order[j]]
    {
      if freqs[order[b]] > freqs[order[best]] {
        best := b;
      }
    }
  }

  // Selection sort, largest frequency first.
  method SortDescending(freqs: seq<nat>, order0: seq<nat>) returns (order: seq<nat>)
    requires forall i :: 0 <= i < |order0| ==> order0[i] < |freqs|
    requires forall i, j :: 0 <= i < j < |order0| ==> order0[i] != order0[j]
    ensures forall i, j :: 0 <= i < j < |order| ==> order[i] != order[j]
    ensures |order| == |order0| && multiset(order) == multiset(order0)
    ensures forall i :: 0 <= i < |order| ==> order[i] < |freqs|
    ensures forall i, j :: 0 <= i < j < |order| ==> freqs[order[i]] >= freqs[order[j]]
  {
    order := order0;
    for a := 0 to |order0|
      invariant |order| == |order0| && multiset(order) == multiset(order0)
      invariant SortedTo(freqs, order, a)
      invariant forall i, j :: 0 <= i < j < |order| ==> order[i] != order[j]
    {
      var best := FindLargest(freqs, order, a);
      SwapSorted(freqs, order, a, best);
      SwapPermutes(order, a, best);
      order := order[a := order[best]][best := order[a]];
    }
  }

  // The first a positions are final.
  ghost predicate SortedTo(freqs: seq<nat>, order: seq<nat>, a: nat) {
    && (forall i :: 0 <= i < |order| ==> order[i] < |freqs|)
    && forall i, j :: 0 <= i < a && i < j < |order| ==> freqs[order[i]] >= freqs[order[j]]
  }

  lemma SwapSorted(freqs: seq<nat>, order: seq<nat>, a: nat, best: nat)
    requires a <= best < |order| && SortedTo(freqs, order, a)
    requires forall j :: a <= j < |order| ==> freqs[order[best]] >= freqs[order[j]]
    ensures SortedTo(freqs, order[a := order[best]][best := order[a]], a + 1)
  {
    var next := order[a := order[best]][best := order[a]];
    forall i, j | 0 <= i < a + 1 && i < j < |next|
      ensures freqs[next[i]] >= freqs[next[j]]
    {
      var k := if j == best then a else j;
      assert i < a ==> freqs[order[i]] >= freqs[order[k]];
    }
  }

  lemma SwapPermutes(order: seq<nat>, a: nat, b: nat)
    requires a <= b < |order|
    ensures multiset(order[a := order[b]][b := order[a]]) == multiset(order)
  {
  }

  // The repair loop has brought diff closer to zero at least once in every completed pass.
  ghost predicate Repairing(counts: seq<nat>, freqs: seq<nat>, order: seq<nat>, m: nat, diff: int,
                            guard: nat, pass: nat, pos: nat, progress: bool) {
    && |freqs| == |counts| && |order| > 0
    && (forall i :: 0 <= i < |order| ==> order[i] < |counts| && counts[order[i]] > 0)
    && (forall s :: 0 <= s < |counts| && counts[s] > 0 ==> s in order)
    && (forall s :: 0 <= s < |counts| ==> (freqs[s] > 0 <==> counts[s] > 0))
    && Sum(freqs, |freqs|) + diff == m
    && guard == pass * |order| + pos && pos < |order|
    && Abs(diff) + pass + (if progress then 1 else 0) <= |counts|
    && (!progress && pos > 0 ==> diff < 0)
    && (!progress ==> forall i :: 0 <= i < pos ==> freqs[order[i]] == 1)
  }

  function Abs(x: int): nat {
    if x < 0 then -x else x
  }

  // Frequencies of which none exceeds 1 cannot sum to more than m.
  lemma AllOnes(counts: seq<nat>, freqs: seq<nat>, order: seq<nat>)
    requires |freqs| == |counts|
    requires forall i :: 0 <= i < |order| ==> order[i] < |counts| && freqs[order[i]] == 1
    requires forall s :: 0 <= s < |counts| && counts[s] > 0 ==> s in order
    requires forall s :: 0 <= s < |counts| ==> (freqs[s] > 0 <==> counts[s] > 0)
    ensures Sum(freqs, |freqs|) <= |counts|
  {
    SumAtMostOne(freqs, |freqs|);
  }

  // One trip round the repair loop: a frequency moves towards the goal, or is 1 and stays.
  lemma RepairStep(counts: seq<nat>, freqs: seq<nat>, order: seq<nat>, m: nat, diff: int,
                   guard: nat, pass: nat, pos: nat, progress: bool, next: seq<nat>, left: int, moved: bool)
    requires Repairing(counts, freqs, order, m, diff, guard, pass, pos, progress)
    requires diff != 0 && |counts| <= m && |next| == |freqs|
    requires var s := order[pos];
             var step: int := if diff > 0 then 1 else -1;
             && moved == (freqs[s] + step >= 1)
             && left == (if moved then diff - step else diff)
             && next == if moved then freqs[s := freqs[s] + step] else freqs
    ensures if pos + 1 < |order|
            then Repairing(counts, next, order, m, left, guard + 1, pass, pos + 1, progress || moved)
            else Repairing(counts, next, order, m, left, guard + 1, pass + 1, 0, false)
  {
    var s := order[pos];
    if moved {
      SumUpdate(freqs, s, next[s], |freqs|);
    } else {
      assert freqs[s] == 1;
      if pos + 1 == |order| && !progress {
        AllOnes(counts, freqs, order);
      }
    }
    Distribute(|order|, pass, 1);
  }

  // The repair moves every frequency in the direction the sum has to go, or not at all.
  ghost predicate OneWay(before: seq<nat>, after: seq<nat>, m: nat) {
    && |before| == |after|
    && (Sum(before, |before|) <= m ==> forall s :: 0 <= s < |before| ==> before[s] <= after[s])
    && (Sum(before, |before|) >= m ==> forall s :: 0 <= s < |before| ==> after[s] <= before[s])
  }

  // The nearest integer frequencies, at least 1 for every symbol that occurs.
  ghost function Nearest(counts: seq<nat>, m: nat): (r: seq<nat>)
    requires Sum(counts, |counts|) > 0
    ensures |r| == |counts|
  {
    seq(|counts|, s requires 0 <= s < |counts| =>
      if counts[s] > 0 then Rounded(counts[s], Sum(counts, |counts|), m) else 0)
  }

  // Brings the frequencies to sum m, largest bucket first, never below 1. The source gives up
  // after a million trips; that never happens.
  method Repair(counts: seq<nat>, freqs0: seq<nat>, order: seq<nat>, m: nat) returns (freqs: seq<nat>)
    requires |counts| <= m && |counts| <= 900 && |freqs0| == |counts| && 0 < |order| <= |counts|
    requires Sum(freqs0, |counts|) != m
    requires forall i :: 0 <= i < |order| ==> order[i] < |counts| && counts[order[i]] > 0
    requires forall s :: 0 <= s < |counts| && counts[s] > 0 ==> s in order
    requires forall s :: 0 <= s < |counts| ==> (freqs0[s] > 0 <==> counts[s] > 0)
    requires m - |counts| <= Sum(freqs0, |counts|) <= m + |counts|
    requires forall i, j :: 0 <= i < j < |order| ==> order[i] != order[j] && freqs0[order[i]] >= freqs0[order[j]]
    ensures |freqs| == |counts| && Sum(freqs, |counts|) == m
    ensures forall s :: 0 <= s < |counts| ==> (freqs[s] > 0 <==> counts[s] > 0)
    ensures OneWay(freqs0, freqs, m) && Evenly(freqs0, freqs)
  {
    hide Level, Evenly, Repairing, OneWay, Sum;
    freqs := freqs0;
    StartRepair(counts, freqs0, order, m);
    var diff: int := m - Sum(freqs, |freqs|);
    StartLevel(freqs0, order, diff > 0);
    ghost var up := diff > 0;
    var guard := 0;
    ghost var pass, pos, progress := 0, 0, false;
    while diff != 0 && |order| > 0
      invariant Repairing(counts, freqs, order, m, diff, guard, pass, pos, progress)
      invariant Level(freqs0, freqs, order, pass, pos, up) && (diff > 0 ==> up) && (diff < 0 ==> !up)
      invariant OneWay(freqs0, freqs, m) && (up <==> m > Sum(freqs0, |freqs0|))
      decreases |counts| - pass, |order| - pos
    {
      RepairNow(counts, freqs, order, m, diff, guard, pass, pos, progress);
      var s := order[guard % |order|];
      var step: int := if diff > 0 then 1 else -1;
      ghost var was, goal := freqs, diff;
      if freqs[s] + step >= 1 {
        freqs := freqs[s := freqs[s] + step];
        diff := diff - step;
      }
      RepairStep(counts, was, order, m, goal, guard, pass, pos, progress, freqs, diff, diff != goal);
      assert freqs == was[s := if up then was[s] + 1 else if was[s] >= 2 then was[s] - 1 else was[s]];
      LevelStep(freqs0, was, order, pass, pos, up, freqs, s);
      OneWayStep(freqs0, was, m, s, freqs, up);
      progress := progress || diff != goal;
      guard := guard + 1;
      pos := pos + 1;
      if pos == |order| {
        pass, pos, progress := pass + 1, 0, false;
      }
      RepairNow(counts, freqs, order, m, diff, guard, pass, pos, progress);
      if guard > 1000000 {
        assert false;
      }
    }
    RepairNow(counts, freqs, order, m, diff, guard, pass, pos, progress);
    LevelEvenly(counts, freqs0, freqs, order, pass, pos, up);
  }

  lemma StartRepair(counts: seq<nat>, freqs: seq<nat>, order: seq<nat>, m: nat)
    requires |freqs| == |counts| && |order| > 0 && m - |counts| <= Sum(freqs, |counts|) <= m + |counts|
    requires forall i :: 0 <= i < |order| ==> order[i] < |counts| && counts[order[i]] > 0
    requires forall s :: 0 <= s < |counts| && counts[s] > 0 ==> s in order
    requires forall s :: 0 <= s < |counts| ==> (freqs[s] > 0 <==> counts[s] > 0)
    ensures Repairing(counts, freqs, order, m, m - Sum(freqs, |freqs|), 0, 0, 0, false) && OneWay(freqs, freqs, m)
  {
  }

  lemma RepairNow(counts: seq<nat>, freqs: seq<nat>, order: seq<nat>, m: nat, diff: int,
                  guard: nat, pass: nat, pos: nat, progress: bool)
    requires Repairing(counts, freqs, order, m, diff, guard, pass, pos, progress) && |order| <= |counts| <= 900
    ensures |freqs| == |counts| && |order| > 0 && pos < |order| && guard % |order| == pos && guard <= 1000000
    ensures order[pos] < |freqs| && freqs[order[pos]] > 0 && Sum(freqs, |freqs|) + diff == m && pass <= |counts|
    ensures forall s :: 0 <= s < |counts| ==> (freqs[s] > 0 <==> counts[s] > 0)
  {
    DivUnique(guard, |order|, pass, pos);
    GuardBound(pass, |order|, pos, |counts|);
  }

  lemma OneWayStep(before: seq<nat>, was: seq<nat>, m: nat, s: nat, freqs: seq<nat>, up: bool)
    requires OneWay(before, was, m) && s < |was| && (up <==> m > Sum(before, |before|)) && Sum(before, |before|) != m
    requires freqs == was || freqs == was[s := if up then was[s] + 1 else if was[s] > 0 then was[s] - 1 else 0]
    ensures OneWay(before, freqs, m)
  {
    hide Sum;
  }

  lemma StartLevel(before: seq<nat>, order: seq<nat>, up: bool)
    requires forall i :: 0 <= i < |order| ==> order[i] < |before| && before[order[i]] > 0
    ensures Level(before, before, order, 0, 0, up)
  {
  }

  // Larger frequencies move at least as far as smaller ones, and none moves more than one further
  // than another that is not down to 1.
  ghost predicate Evenly(before: seq<nat>, after: seq<nat>) {
    && |before| == |after|
    && forall s, t :: 0 <= s < |before| && 0 <= t < |before| && before[s] > 0 && before[t] > 0 ==>
         && (before[s] > before[t] ==> Distance(before[s], after[s]) >= Distance(before[t], after[t]))
         && (Distance(before[s], after[s]) <= Distance(before[t], after[t]) + 1 || after[t] == 1)
  }

  function Distance(a: nat, b: nat): nat {
    if a < b then b - a else a - b
  }

  // A frequency that has been moved n times.
  function Moved(f: nat, n: nat, up: bool): nat {
    if up then f + n else if f > n then f - n else 1
  }

  // After some passes over order and pos steps of the next.
  ghost predicate Level(before: seq<nat>, freqs: seq<nat>, order: seq<nat>, pass: nat, pos: nat, up: bool) {
    && |before| == |freqs| && pos <= |order|
    && (forall i :: 0 <= i < |order| ==> order[i] < |before| && before[order[i]] > 0)
    && forall i :: 0 <= i < |order| ==>
         freqs[order[i]] == Moved(before[order[i]], if i < pos then pass + 1 else pass, up)
  }

  lemma LevelStep(before: seq<nat>, was: seq<nat>, order: seq<nat>, pass: nat, pos: nat, up: bool, freqs: seq<nat>, s: nat)
    requires Level(before, was, order, pass, pos, up) && pos < |order| && s == order[pos]
    requires forall i, j :: 0 <= i < j < |order| ==> order[i] != order[j]
    requires freqs == was[s := if up then was[s] + 1 else if was[s] >= 2 then was[s] - 1 else was[s]]
    ensures Level(before, freqs, order, pass, pos + 1, up)
    ensures pos + 1 == |order| ==> Level(before, freqs, order, pass + 1, 0, up)
  {
    forall i | 0 <= i < |order|
      ensures freqs[order[i]] == Moved(before[order[i]], if i < pos + 1 then pass + 1 else pass, up)
    {
      assert i != pos ==> order[i] != s;
    }
  }

  lemma LevelEvenly(counts: seq<nat>, before: seq<nat>, after: seq<nat>, order: seq<nat>, pass: nat, pos: nat, up: bool)
    requires Level(before, after, order, pass, pos, up)
    requires forall i, j :: 0 <= i < j < |order| ==> before[order[i]] >= before[order[j]]
    requires forall s :: 0 <= s < |before| && before[s] > 0 ==> s in order
    ensures Evenly(before, after)
  {
    forall s, t | 0 <= s < |before| && 0 <= t < |before| && before[s] > 0 && before[t] > 0
      ensures before[s] > before[t] ==> Distance(before[s], after[s]) >= Distance(before[t], after[t])
      ensures Distance(before[s], after[s]) <= Distance(before[t], after[t]) + 1 || after[t] == 1
    {
      assert s in order && t in order;
      var i :| 0 <= i < |order| && order[i] == s;
      var j :| 0 <= j < |order| && order[j] == t;
      assert before[s] > before[t] ==> i < j;
    }
  }

  lemma GuardBound(pass: nat, n: nat, pos: nat, k: nat)
    requires pos < n <= k <= 900 && pass <= k
    ensures pass * n + pos <= 1000000
  {
    MulMono(pass, 900, n);
  }

  lemma SumPositive(counts: seq<nat>)
    requires exists s :: 0 <= s < |counts| && counts[s] > 0
    ensures Sum(counts, |counts|) > 0
  {
    SumZero(counts, |counts|);
  }

  // codec_quantize_freqs.
  method QuantizeFreqs(counts: seq<nat>, m: nat) returns (freqs: seq<nat>)
    requires |counts| <= m && |counts| <= 900
    ensures |freqs| == |counts|
    ensures forall s :: 0 <= s < |counts| ==> (freqs[s] > 0 <==> counts[s] > 0)
    ensures Sum(freqs, |counts|) == if exists s :: 0 <= s < |counts| && counts[s] > 0 then m else 0
    ensures Sum(counts, |counts|) > 0 ==> OneWay(Nearest(counts, m), freqs, m) && Evenly(Nearest(counts, m), freqs)
  {
    var total := 0;
    for s := 0 to |counts|
      invariant total == Sum(counts, s)
    {
      total := total + counts[s];
    }
    SumZero(counts, |counts|);
    if total == 0 {
      freqs := seq(|counts|, _ => 0);
      SumZero(freqs, |freqs|);
      return;
    }
    var sum;
    freqs, sum := RoundAll(counts, total, m);
    RoundedNear(counts, freqs, m);
    assert freqs == Nearest(counts, m);
    if m - sum != 0 {
      var order := LargestFirst(freqs);
      freqs := Repair(counts, freqs, order, m);
    }
  }

  method RoundAll(counts: seq<nat>, total: nat, m: nat) returns (freqs: seq<nat>, sum: nat)
    requires total > 0
    ensures RoundedTo(counts, freqs, total, m, |counts|) && sum == Sum(freqs, |counts|)
  {
    freqs := seq(|counts|, _ => 0);
    SumZero(freqs, |freqs|);
    sum := 0;
    for s := 0 to |counts|
      invariant RoundedTo(counts, freqs, total, m, s)
      invariant sum == Sum(freqs, |counts|)
    {
      if counts[s] > 0 {
        SumUpdate(freqs, s, Rounded(counts[s], total, m), |counts|);
        freqs := freqs[s := Rounded(counts[s], total, m)];
        sum := sum + freqs[s];
      }
    }
  }

  // The symbols that occur, by descending frequency.
  method LargestFirst(freqs: seq<nat>) returns (sorted: seq<nat>)
    ensures |sorted| <= |freqs| && forall i :: 0 <= i < |sorted| ==> sorted[i] < |freqs|
    ensures forall t :: t in sorted <==> 0 <= t < |freqs| && freqs[t] > 0
    ensures forall i, j :: 0 <= i < j < |sorted| ==> freqs[sorted[i]] >= freqs[sorted[j]] && sorted[i] != sorted[j]
  {
    var order: seq<nat> := [];
    for s := 0 to |freqs|
      invariant |order| <= s && forall i :: 0 <= i < |order| ==> order[i] < s
      invariant forall i, j :: 0 <= i < j < |order| ==> order[i] != order[j]
      invariant forall t :: t in order <==> 0 <= t < s && freqs[t] > 0
    {
      if freqs[s] > 0 {
        order := order + [s];
      }
    }
    sorted := SortDescending(freqs, order);
    assert forall t :: t in sorted <==> t in multiset(order);
  }
}
