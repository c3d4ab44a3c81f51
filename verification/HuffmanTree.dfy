/** The repeated-minimum merge behind Huffman code lengths, as a table of nodes, and its optimality.
    Nodes 0..n-1 are leaves; node u >= n was created by merging the two lightest nodes alive at time u. */
module HuffmanTree {
  import opened Arith

  // par[i] is the time at which node i was merged away, 2n-1 for a node never merged.
  datatype Merges = Merges(n: nat, w: seq<nat>, left: seq<nat>, right: seq<nat>, par: seq<nat>)

  ghost predicate AliveAt(t: Merges, i: nat, u: nat) {
    i < u && i < |t.par| && u <= t.par[i]
  }

  ghost predicate MergedAt(t: Merges, u: nat)
    requires t.n <= u < |t.w| == |t.left| == |t.right| == |t.par|
  {
    var a, b := t.left[u], t.right[u];
    && a < u && b < u && a != b
    && t.w[u] == t.w[a] + t.w[b]
    && t.par[a] == u && t.par[b] == u
    && (forall i :: 0 <= i < u && AliveAt(t, i, u) ==> t.w[a] <= t.w[i])
    && (forall i :: 0 <= i < u && AliveAt(t, i, u) && i != a ==> t.w[b] <= t.w[i])
  }

  // A table built by repeated minimum merges, possibly not finished.
  ghost predicate Valid(t: Merges) {
    && t.n <= |t.w| <= 2 * t.n - 1
    && |t.left| == |t.w| && |t.right| == |t.w| && |t.par| == |t.w|
    && (forall i :: 0 <= i < |t.w| ==> i < t.par[i] <= 2 * t.n - 1)
    && (forall i :: 0 <= i < |t.w| && t.par[i] < 2 * t.n - 1 ==>
          t.n <= t.par[i] < |t.w| && (t.left[t.par[i]] == i || t.right[t.par[i]] == i))
    && (forall u :: t.n <= u < |t.w| ==> MergedAt(t, u))
  }

  ghost predicate Finished(t: Merges) {
    Valid(t) && |t.w| == 2 * t.n - 1 && forall i :: 0 <= i < |t.w| - 1 ==> t.par[i] < |t.w|
  }

  // ---- lengths on the alive nodes: -1 for a node that is not alive ----

  ghost predicate LensAt(t: Merges, l: seq<int>, u: nat) {
    |l| == u && forall i :: 0 <= i < u ==> l[i] >= -1 && (l[i] >= 0 <==> AliveAt(t, i, u))
  }

  ghost predicate AtMost(l: seq<int>, d: nat) {
    forall i :: 0 <= i < |l| ==> l[i] <= d
  }

  ghost function Share(x: int, d: nat): nat
    requires x <= d
  {
    if x < 0 then 0 else Pow2(d - x)
  }

  ghost function KraftSum(l: seq<int>, k: nat, d: nat): nat
    requires k <= |l| && AtMost(l, d)
  {
    if k == 0 then 0 else KraftSum(l, k - 1, d) + Share(l[k - 1], d)
  }

  ghost function Pay(w: nat, x: int): nat {
    if x < 0 then 0 else w * x
  }

  ghost function Cost(w: seq<nat>, l: seq<int>, k: nat): nat
    requires k <= |l| <= |w|
  {
    if k == 0 then 0 else Cost(w, l, k - 1) + Pay(w[k - 1], l[k - 1])
  }

  // Weight of every node created from time u on.
  ghost function MergeSum(w: seq<nat>, u: nat): nat
    decreases |w| - u
  {
    if u >= |w| then 0 else w[u] + MergeSum(w, u + 1)
  }

  lemma {:induction false} KraftUpdate(l: seq<int>, i: nat, x: int, k: nat, d: nat)
    requires i < |l| && k <= |l| && AtMost(l, d) && x <= d
    ensures KraftSum(l[i := x], k, d) == KraftSum(l, k, d) + (if i < k then Share(x, d) - Share(l[i], d) else 0)
  {
    if k > 0 {
      KraftUpdate(l, i, x, k - 1, d);
    }
  }

  lemma {:induction false} CostUpdate(w: seq<nat>, l: seq<int>, i: nat, x: int, k: nat)
    requires i < |l| <= |w| && k <= |l|
    ensures Cost(w, l[i := x], k) == Cost(w, l, k) + (if i < k then Pay(w[i], x) - Pay(w[i], l[i]) else 0)
  {
    if k > 0 {
      CostUpdate(w, l, i, x, k - 1);
    }
  }

  lemma {:induction false} KraftAppend(l: seq<int>, x: int, k: nat, d: nat)
    requires k <= |l| && AtMost(l, d) && x <= d
    ensures AtMost(l + [x], d) && KraftSum(l + [x], k, d) == KraftSum(l, k, d)
  {
    if k > 0 {
      KraftAppend(l, x, k - 1, d);
    }
  }

  lemma {:induction false} CostAppend(w: seq<nat>, l: seq<int>, x: int, k: nat)
    requires k <= |l| < |w|
    ensures Cost(w, l + [x], k) == Cost(w, l, k)
  {
    if k > 0 {
      CostAppend(w, l, x, k - 1);
    }
  }

  // Removing nodes a and b and appending one node of length x.
  ghost function Replaced(l: seq<int>, a: nat, b: nat, x: int): seq<int>
    requires a < |l| && b < |l|
  {
    l[a := -1][b := -1] + [x]
  }

  lemma ReplacedSums(w: seq<nat>, l: seq<int>, a: nat, b: nat, x: int, d: nat)
    requires a < |l| && b < |l| < |w| && a != b && AtMost(l, d) && x <= d
    ensures AtMost(Replaced(l, a, b, x), d)
    ensures KraftSum(Replaced(l, a, b, x), |l| + 1, d) + Share(l[a], d) + Share(l[b], d)
         == KraftSum(l, |l|, d) + Share(x, d)
    ensures KraftSum(l[a := -1][b := -1], |l|, d) + Share(l[a], d) + Share(l[b], d) == KraftSum(l, |l|, d)
    ensures Cost(w, Replaced(l, a, b, x), |l| + 1) + Pay(w[a], l[a]) + Pay(w[b], l[b])
         == Cost(w, l, |l|) + Pay(w[|l|], x)
  {
    var l1 := l[a := -1];
    var l2 := l1[b := -1];
    KraftUpdate(l, a, -1, |l|, d);
    KraftUpdate(l1, b, -1, |l|, d);
    KraftAppend(l2, x, |l|, d);
    CostUpdate(w, l, a, -1, |l|);
    CostUpdate(w, l1, b, -1, |l|);
    CostAppend(w, l2, x, |l|);
  }

  // Giving the longer of two lengths to the lighter node costs no more.
  lemma Swap(w: seq<nat>, l: seq<int>, i: nat, j: nat, d: nat) returns (s: seq<int>)
    requires i < |l| && j < |l| <= |w| && AtMost(l, d)
    requires w[i] <= w[j] && 0 <= l[i] <= l[j]
    ensures s == l[i := l[j]][j := l[i]] && AtMost(s, d)
    ensures forall k :: 0 <= k < |l| ==> (s[k] >= 0 <==> l[k] >= 0) && (l[k] >= -1 ==> s[k] >= -1)
    ensures KraftSum(s, |s|, d) == KraftSum(l, |l|, d)
    ensures Cost(w, s, |s|) <= Cost(w, l, |l|)
  {
    var m := l[i := l[j]];
    s := m[j := l[i]];
    KraftUpdate(l, i, l[j], |l|, d);
    KraftUpdate(m, j, l[i], |l|, d);
    CostUpdate(w, l, i, l[j], |l|);
    CostUpdate(w, m, j, l[i], |l|);
    SwapPays(w[i], w[j], l[i], l[j]);
    if i == j {
      assert s == l;
    }
  }

  lemma SwapPays(a: nat, b: nat, x: nat, y: nat)
    requires a <= b && x <= y
    ensures a * y + b * x <= a * x + b * y
  {
    assert (b - a) * (y - x) >= 0;
    assert (b - a) * (y - x) == b * y - b * x - a * y + a * x;
  }

  // The longest length over alive nodes other than skip.
  lemma {:induction false} Longest(l: seq<int>, k: nat, skip: int) returns (x: int)
    requires k <= |l|
    ensures x == -1 || (0 <= x < k && x != skip && l[x] >= 0)
    ensures forall i :: 0 <= i < k && i != skip && l[i] >= 0 ==> x >= 0 && l[i] <= l[x]
  {
    x := -1;
    var i := 0;
    while i < k
      invariant i <= k
      invariant x == -1 || (0 <= x < i && x != skip && l[x] >= 0)
      invariant forall j :: 0 <= j < i && j != skip && l[j] >= 0 ==> x >= 0 && l[j] <= l[x]
    {
      if i != skip && l[i] >= 0 && (x < 0 || l[i] > l[x]) {
        x := i;
      }
      i := i + 1;
    }
  }

  // Every share is a multiple of the smallest one.
  lemma {:induction false} KraftMultiple(l: seq<int>, k: nat, d: nat, e: nat) returns (c: nat)
    requires k <= |l| && AtMost(l, d) && e <= d && forall i :: 0 <= i < k ==> l[i] <= e
    ensures KraftSum(l, k, d) == c * Pow2(d - e)
  {
    c := 0;
    if k > 0 {
      c := KraftMultiple(l, k - 1, d, e);
      if l[k - 1] >= 0 {
        Pow2Add(e - l[k - 1], d - e);
        var y, q := Pow2(e - l[k - 1]), Pow2(d - e);
        assert (c + y) * q == c * q + y * q;
        c := c + y;
      }
    }
  }

  // Room for two shares of length y where one of length y and a shorter share already fit.
  lemma RoomForTwo(c: nat, q: nat, r: nat, y: nat)
    requires q > 0 && r > 0 && c * q + q + r <= y * q
    ensures c * q + 2 * q <= y * q
  {
    assert (c + 1) * q == c * q + q && (c + 2) * q == c * q + 2 * q;
    if c + 1 >= y {
      MulLe(y, c + 1, q);
      assert false;
    }
    MulLe(c + 2, y, q);
  }

  lemma MulLe(a: nat, b: nat, c: nat)
    requires a <= b
    ensures a * c <= b * c
  {
    assert (b - a) * c >= 0;
    assert b * c == a * c + (b - a) * c;
  }

  // Merging the two nodes that carry the two longest lengths.
  lemma MergeLongest(t: Merges, l: seq<int>, u: nat, d: nat) returns (m: seq<int>)
    requires Valid(t) && t.n <= u < |t.w| && LensAt(t, l, u) && AtMost(l, d)
    requires KraftSum(l, u, d) <= Pow2(d) && MergedAt(t, u)
    requires l[t.right[u]] <= l[t.left[u]]
    requires forall i :: 0 <= i < u && i != t.left[u] ==> l[i] <= l[t.right[u]]
    ensures LensAt(t, m, u + 1) && AtMost(m, d)
    ensures KraftSum(m, u + 1, d) <= Pow2(d)
    ensures Cost(t.w, m, u + 1) + t.w[u] <= Cost(t.w, l, u)
  {
    hide Cost, KraftSum;
    var a, b := t.left[u], t.right[u];
    var y := l[b];
    m := Replaced(l, a, b, y - 1);
    ReplacedSums(t.w, l, a, b, y - 1, d);
    var l2 := l[a := -1][b := -1];
    var c := KraftMultiple(l2, u, d, y);
    var q := Pow2(d - y);
    Pow2Add(y, d - y);
    RoomForTwo(c, q, Share(l[a], d), Pow2(y));
    assert y > 0 && Share(y - 1, d) == 2 * q;
    MergePays(t.w[a], t.w[b], l[a], y);
    MergedLens(t, l, u, m);
  }

  lemma MergePays(a: nat, b: nat, x: nat, y: nat)
    requires 0 < y <= x
    ensures (a + b) * (y - 1) + (a + b) <= a * x + b * y
  {
    assert a * y <= a * x by {
      assert a * (x - y) >= 0;
      assert a * x == a * y + a * (x - y);
    }
    assert (a + b) * (y - 1) + (a + b) == (a + b) * y == a * y + b * y;
  }

  lemma MergedLens(t: Merges, l: seq<int>, u: nat, m: seq<int>)
    requires Valid(t) && t.n <= u < |t.w| && LensAt(t, l, u) && MergedAt(t, u)
    requires |m| == u + 1 && m[u] >= 0
    requires m[t.left[u]] == -1 && m[t.right[u]] == -1
    requires forall i :: 0 <= i < u && i != t.left[u] && i != t.right[u] ==> m[i] == l[i]
    ensures LensAt(t, m, u + 1)
  {
    forall i | 0 <= i < u + 1
      ensures m[i] >= -1 && (m[i] >= 0 <==> AliveAt(t, i, u + 1))
    {
      if i < u && t.par[i] == u {
        assert i == t.left[u] || i == t.right[u];
      }
    }
  }

  // Lengths can be rearranged, at no cost, so that the two lightest nodes carry the longest.
  lemma Rearrange(t: Merges, l: seq<int>, u: nat, d: nat) returns (r: seq<int>)
    requires Valid(t) && t.n <= u < |t.w| && LensAt(t, l, u) && AtMost(l, d) && MergedAt(t, u)
    ensures LensAt(t, r, u) && AtMost(r, d)
    ensures KraftSum(r, u, d) == KraftSum(l, u, d) && Cost(t.w, r, u) <= Cost(t.w, l, u)
    ensures r[t.right[u]] <= r[t.left[u]]
    ensures forall i :: 0 <= i < u && i != t.left[u] ==> r[i] <= r[t.right[u]]
  {
    var a, b := t.left[u], t.right[u];
    assert AliveAt(t, a, u) && AliveAt(t, b, u);
    assert a < u && l[a] >= 0 && b < u && l[b] >= 0;
    var x := Longest(l, u, -1);
    assert x >= 0 && l[a] <= l[x];
    var l1 := Swap(t.w, l, a, x, d);
    assert l1[b] >= 0 && b != a;
    var y := Longest(l1, u, a);
    assert y >= 0 && l1[b] <= l1[y];
    r := Swap(t.w, l1, b, y, d);
  }

  // No assignment of lengths within the Kraft bound costs less than the merges from u on.
  lemma {:induction false} LowerBound(t: Merges, l: seq<int>, u: nat, d: nat)
    requires Finished(t) && t.n <= u <= |t.w| && LensAt(t, l, u) && AtMost(l, d)
    requires KraftSum(l, u, d) <= Pow2(d)
    ensures MergeSum(t.w, u) <= Cost(t.w, l, u)
    decreases |t.w| - u
  {
    if u < |t.w| {
      assert MergedAt(t, u);
      var l2 := Rearrange(t, l, u, d);
      var m := MergeLongest(t, l2, u, d);
      LowerBound(t, m, u + 1, d);
    }
  }

  // ---- the depths of the finished tree ----

  ghost function Depth(t: Merges, i: nat): nat
    requires Finished(t) && i < |t.w|
    decreases |t.w| - i
  {
    if t.par[i] < |t.w| then 1 + Depth(t, t.par[i]) else 0
  }

  ghost function DepthsAt(t: Merges, u: nat): (l: seq<int>)
    requires Finished(t) && u <= |t.w|
    ensures LensAt(t, l, u)
  {
    seq(u, i requires 0 <= i < u => if AliveAt(t, i, u) then Depth(t, i) else -1)
  }

  // An internal node lies above the root's depth by at most its distance in time; a leaf one more.
  lemma {:induction false} DepthBound(t: Merges, i: nat)
    requires Finished(t) && i < |t.w|
    ensures Depth(t, i) <= |t.w| - 1 - (if i < t.n - 1 then t.n - 1 else i)
    decreases |t.w| - i
  {
    if t.par[i] < |t.w| {
      DepthBound(t, t.par[i]);
    }
  }

  // The depths are exactly as cheap as the merges, and use the whole code space.
  lemma {:induction false} DepthCost(t: Merges, u: nat, d: nat)
    requires Finished(t) && t.n <= u <= |t.w| && t.n >= 1 && AtMost(DepthsAt(t, u), d)
    requires forall i :: 0 <= i < |t.w| ==> Depth(t, i) <= d
    ensures Cost(t.w, DepthsAt(t, u), u) == MergeSum(t.w, u)
    ensures KraftSum(DepthsAt(t, u), u, d) == Pow2(d)
    decreases |t.w| - u
  {
    if u == |t.w| {
      RootOnly(t, d);
    } else {
      hide DepthsAt, Depth, MergedAt, Cost, KraftSum, Replaced, AtMost;
      DepthsAtMost(t, u + 1, d);
      DepthCost(t, u + 1, d);
      DepthsStep(t, u);
      DepthSums(t, u, d);
    }
  }

  lemma DepthsAtMost(t: Merges, u: nat, d: nat)
    requires Finished(t) && u <= |t.w| && forall i :: 0 <= i < |t.w| ==> Depth(t, i) <= d
    ensures AtMost(DepthsAt(t, u), d)
  {
    hide Finished, Depth;
  }

  // What one more merge pays for.
  lemma DepthSums(t: Merges, u: nat, d: nat)
    requires Finished(t) && t.n <= u < |t.w| && AtMost(DepthsAt(t, u), d) && Depth(t, u) <= d
    requires AtMost(DepthsAt(t, u + 1), d)
    requires MergedAt(t, u) && DepthsAt(t, u + 1) == Replaced(DepthsAt(t, u), t.left[u], t.right[u], Depth(t, u))
    requires DepthsAt(t, u)[t.left[u]] == Depth(t, u) + 1 && DepthsAt(t, u)[t.right[u]] == Depth(t, u) + 1
    ensures Cost(t.w, DepthsAt(t, u), u) == Cost(t.w, DepthsAt(t, u + 1), u + 1) + t.w[u]
    ensures KraftSum(DepthsAt(t, u), u, d) == KraftSum(DepthsAt(t, u + 1), u + 1, d)
  {
    hide DepthsAt, Depth, Cost, KraftSum, Replaced;
    var a, b := t.left[u], t.right[u];
    ReplacedSums(t.w, DepthsAt(t, u), a, b, Depth(t, u), d);
    SplitPays(t.w[a], t.w[b], Depth(t, u));
  }

  lemma DepthsStep(t: Merges, u: nat)
    requires Finished(t) && t.n <= u < |t.w|
    ensures MergedAt(t, u)
    ensures DepthsAt(t, u + 1) == Replaced(DepthsAt(t, u), t.left[u], t.right[u], Depth(t, u))
    ensures DepthsAt(t, u)[t.left[u]] == Depth(t, u) + 1 && DepthsAt(t, u)[t.right[u]] == Depth(t, u) + 1
  {
    assert MergedAt(t, u);
    forall i | 0 <= i < u && t.par[i] == u
      ensures i == t.left[u] || i == t.right[u]
    {
    }
  }

  lemma SplitPays(a: nat, b: nat, x: nat)
    ensures a * (x + 1) + b * (x + 1) == (a + b) * x + (a + b)
  {
  }

  // Once finished only the root is alive.
  lemma RootOnly(t: Merges, d: nat)
    requires Finished(t) && t.n >= 1
    requires AtMost(DepthsAt(t, |t.w|), d)
    ensures Cost(t.w, DepthsAt(t, |t.w|), |t.w|) == 0
    ensures KraftSum(DepthsAt(t, |t.w|), |t.w|, d) == Pow2(d)
  {
    NoneAlive(t, |t.w| - 1, d);
  }

  lemma {:induction false} NoneAlive(t: Merges, k: nat, d: nat)
    requires Finished(t) && k < |t.w| && AtMost(DepthsAt(t, |t.w|), d)
    ensures Cost(t.w, DepthsAt(t, |t.w|), k) == 0
    ensures KraftSum(DepthsAt(t, |t.w|), k, d) == 0
  {
    if k > 0 {
      NoneAlive(t, k - 1, d);
    }
  }
}
