/** huff_build_lengths and huff_build of c/codec_row_huff.h: code lengths from a histogram. */
module HuffmanBuild {
  import opened Arith
  import opened Canonical
  import opened Huffman
  import opened HuffmanTree

  // The symbols that occur, ascending: the leaves in order of creation.
  function Leaves(counts: seq<nat>, k: nat): (r: seq<nat>)
    requires k <= |counts|
    ensures |r| <= k
    ensures forall i :: 0 <= i < |r| ==> r[i] < k && counts[r[i]] > 0
    ensures forall i, j :: 0 <= i < j < |r| ==> r[i] < r[j]
  {
    if k == 0 then [] else
      var r := Leaves(counts, k - 1);
      if counts[k - 1] > 0 then r + [k - 1] else r
  }

  lemma {:induction false} LeavesComplete(counts: seq<nat>, k: nat, s: nat)
    requires s < k <= |counts| && counts[s] > 0
    ensures s in Leaves(counts, k)
  {
    if s < k - 1 {
      LeavesComplete(counts, k - 1, s);
    }
  }

  // The total stored bits of the histogram under lengths len.
  ghost function TotalBits(counts: seq<nat>, len: Lengths, k: nat): nat
    requires k <= |counts| == |len|
  {
    if k == 0 then 0 else TotalBits(counts, len, k - 1) + counts[k - 1] * len[k - 1]
  }

  // Lengths of some prefix code, of any depth d, that covers every symbol that occurs.
  ghost predicate Feasible(counts: seq<nat>, len: Lengths, d: nat) {
    && |len| == |counts| && Bounded(len, d) && Kraft(len, d) <= Pow2(d)
    && forall s :: 0 <= s < |counts| && counts[s] > 0 ==> len[s] > 0
  }

  ghost predicate Optimal(counts: seq<nat>, len: Lengths)
    requires |len| == |counts|
  {
    forall other: Lengths, d: nat :: Feasible(counts, other, d) ==>
      TotalBits(counts, len, |counts|) <= TotalBits(counts, other, |counts|)
  }

  // ---- the merge loop ----

  ghost function CountAlive(alive: seq<bool>, k: nat): nat
    requires k <= |alive|
  {
    if k == 0 then 0 else CountAlive(alive, k - 1) + (if alive[k - 1] then 1 else 0)
  }

  lemma {:induction false} CountAliveUpdate(alive: seq<bool>, i: nat, k: nat)
    requires i < |alive| && alive[i] && k <= |alive|
    ensures CountAlive(alive[i := false], k) == CountAlive(alive, k) - (if i < k then 1 else 0)
  {
    if k > 0 {
      CountAliveUpdate(alive, i, k - 1);
    }
  }

  lemma {:induction false} CountAliveAppend(alive: seq<bool>, x: bool, k: nat)
    requires k <= |alive|
    ensures CountAlive(alive + [x], k) == CountAlive(alive, k)
  {
    if k > 0 {
      CountAliveAppend(alive, x, k - 1);
    }
  }

  lemma {:induction false} CountAliveZero(alive: seq<bool>, k: nat, i: nat)
    requires i < k <= |alive| && CountAlive(alive, k) == 0
    ensures !alive[i]
  {
    if i < k - 1 {
      CountAliveZero(alive, k - 1, i);
    }
  }

  // One scan finds the lightest and the second lightest live node, the earliest on ties.
  method TwoLightest(weight: seq<nat>, alive: seq<bool>) returns (first: nat, second: nat)
    requires |alive| == |weight| && CountAlive(alive, |alive|) >= 2
    ensures first < |weight| && second < |weight| && first != second && alive[first] && alive[second]
    ensures forall i :: 0 <= i < |weight| && alive[i] ==> weight[first] <= weight[i]
    ensures forall i :: 0 <= i < |weight| && alive[i] && i != first ==> weight[second] <= weight[i]
    ensures forall i :: 0 <= i < first && alive[i] ==> weight[first] < weight[i]
    ensures forall i :: 0 <= i < second && alive[i] && i != first ==> weight[second] < weight[i]
  {
    var a: int, b: int := -1, -1;
    for i := 0 to |weight|
      invariant -1 <= a < i && -1 <= b < i
      invariant a < 0 ==> b < 0 && CountAlive(alive, i) == 0
      invariant b < 0 ==> CountAlive(alive, i) <= 1
      invariant a >= 0 ==> alive[a] && forall j :: 0 <= j < i && alive[j] ==> weight[a] <= weight[j]
      invariant b >= 0 ==> alive[b] && a != b
      invariant b >= 0 ==> forall j :: 0 <= j < i && alive[j] && j != a ==> weight[b] <= weight[j]
      invariant a >= 0 ==> forall j :: 0 <= j < a && alive[j] ==> weight[a] < weight[j]
      invariant b >= 0 ==> forall j :: 0 <= j < b && alive[j] && j != a ==> weight[b] < weight[j]
      invariant b < 0 ==> forall j :: 0 <= j < i && alive[j] ==> j == a
      invariant a < 0 ==> forall j :: 0 <= j < i ==> !alive[j]
    {
      if alive[i] {
        if a < 0 || weight[i] < weight[a] {
          b := a;
          a := i;
        } else if b < 0 || weight[i] < weight[b] {
          b := i;
        }
      }
    }
    first, second := a, b;
  }

  // alive says which nodes have not been merged away yet.
  ghost predicate Tracks(t: Merges, alive: seq<bool>) {
    && HuffmanTree.Valid(t) && |alive| == |t.w| && t.n >= 1
    && (forall i :: 0 <= i < |t.w| ==> (alive[i] <==> t.par[i] == 2 * t.n - 1))
    && CountAlive(alive, |alive|) == 2 * t.n - |t.w|
  }

  ghost function Merged(t: Merges, a: nat, b: nat): Merges
    requires a < |t.par| && b < |t.par| && a < |t.w| && b < |t.w| && t.n >= 1
  {
    Merges(t.n, t.w + [t.w[a] + t.w[b]], t.left + [a], t.right + [b],
           t.par[a := |t.w|][b := |t.w|] + [2 * t.n - 1])
  }

  // Merging the two lightest live nodes extends the table.
  lemma MergeStep(t: Merges, alive: seq<bool>, a: nat, b: nat)
    requires Tracks(t, alive) && |t.w| < 2 * t.n - 1
    requires a < |t.w| && b < |t.w| && a != b && alive[a] && alive[b]
    requires forall i :: 0 <= i < |t.w| && alive[i] ==> t.w[a] <= t.w[i]
    requires forall i :: 0 <= i < |t.w| && alive[i] && i != a ==> t.w[b] <= t.w[i]
    ensures Tracks(Merged(t, a, b), alive[a := false][b := false] + [true])
  {
    hide MergedAt, AliveAt, CountAlive;
    OneFewer(alive, a, b);
    forall u | t.n <= u < |t.w|
      ensures MergedAt(Merged(t, a, b), u)
    {
      StaysMerged(t, a, b, u);
    }
    NowMerged(t, alive, a, b);
  }

  lemma OneFewer(alive: seq<bool>, a: nat, b: nat)
    requires a < |alive| && b < |alive| && a != b && alive[a] && alive[b]
    ensures var next := alive[a := false][b := false] + [true];
            CountAlive(next, |next|) == CountAlive(alive, |alive|) - 1
  {
    CountAliveUpdate(alive, a, |alive|);
    CountAliveUpdate(alive[a := false], b, |alive|);
    CountAliveAppend(alive[a := false][b := false], true, |alive|);
  }

  // The new node merges the two lightest.
  lemma NowMerged(t: Merges, alive: seq<bool>, a: nat, b: nat)
    requires Tracks(t, alive) && a < |t.w| && b < |t.w| && a != b && alive[a] && alive[b] && |t.w| < 2 * t.n - 1
    requires forall i :: 0 <= i < |t.w| && alive[i] ==> t.w[a] <= t.w[i]
    requires forall i :: 0 <= i < |t.w| && alive[i] && i != a ==> t.w[b] <= t.w[i]
    ensures MergedAt(Merged(t, a, b), |t.w|)
  {
    hide MergedAt, CountAlive;
    var m := Merged(t, a, b);
    forall i | 0 <= i < |t.w| && AliveAt(m, i, |t.w|)
      ensures alive[i]
    {
      if i != a && i != b {
        assert m.par[i] == t.par[i] && t.par[i] >= |t.w|;
        assert t.par[i] == 2 * t.n - 1;
      }
    }
    MergedHere(m, |t.w|);
  }

  lemma MergedHere(t: Merges, u: nat)
    requires t.n <= u < |t.w| == |t.left| == |t.right| == |t.par|
    requires var a, b := t.left[u], t.right[u];
             && a < u && b < u && a != b && t.w[u] == t.w[a] + t.w[b] && t.par[a] == u && t.par[b] == u
             && (forall i :: 0 <= i < u && AliveAt(t, i, u) ==> t.w[a] <= t.w[i])
             && (forall i :: 0 <= i < u && AliveAt(t, i, u) && i != a ==> t.w[b] <= t.w[i])
    ensures MergedAt(t, u)
  {
  }

  lemma StaysMerged(t: Merges, a: nat, b: nat, u: nat)
    requires HuffmanTree.Valid(t) && t.n <= u < |t.w| && a < |t.w| && b < |t.w|
    requires t.par[a] == 2 * t.n - 1 && t.par[b] == 2 * t.n - 1 && |t.w| < 2 * t.n - 1
    ensures MergedAt(Merged(t, a, b), u)
  {
    assert MergedAt(t, u);
    assert forall i :: 0 <= i < u ==> (AliveAt(Merged(t, a, b), i, u) <==> AliveAt(t, i, u));
  }

  lemma Started(t: Merges, alive: seq<bool>)
    requires t.n >= 2 && |t.w| == |t.left| == |t.right| == |t.par| == |alive| == t.n
    requires forall i :: 0 <= i < t.n ==> alive[i] && t.par[i] == 2 * t.n - 1
    ensures Tracks(t, alive)
  {
    AllAlive(alive, t.n);
  }

  lemma Ended(t: Merges, alive: seq<bool>)
    requires Tracks(t, alive) && |t.w| == 2 * t.n - 1 && alive[|t.w| - 1]
    ensures Finished(t)
  {
    forall i | 0 <= i < |t.w| - 1
      ensures t.par[i] < |t.w|
    {
      CountAliveZero(alive, |t.w| - 1, i);
    }
  }

  lemma TracksSizes(t: Merges, alive: seq<bool>)
    requires Tracks(t, alive)
    ensures t.n <= |t.w| == |t.left| == |t.right| == |t.par| == |alive| <= 2 * t.n - 1
    ensures CountAlive(alive, |alive|) == 2 * t.n - |t.w|
  {
  }

  method MergeAll(leafWeight: seq<nat>) returns (left: seq<nat>, right: seq<nat>, root: nat, ghost t: Merges)
    requires |leafWeight| >= 2
    ensures Finished(t) && t.n == |leafWeight| && t.w[..t.n] == leafWeight
    ensures left == t.left && right == t.right && root == |t.w| - 1
  {
    hide Tracks, Finished, CountAlive;
    var n := |leafWeight|;
    var weight := leafWeight;
    var alive := seq(n, _ => true);
    left, right := seq(n, _ => 0), seq(n, _ => 0);
    t := Merges(n, weight, left, right, seq(n, _ => 2 * n - 1));
    Started(t, alive);
    var remaining := n;
    root := 0;
    while remaining > 1
      invariant Tracks(t, alive) && t.n == n && n <= |t.w| && t.w[..n] == leafWeight
      invariant t.w == weight && t.left == left && t.right == right
      invariant 1 <= remaining == 2 * n - |weight|
      invariant |alive| == |weight| && (remaining < n ==> root == |weight| - 1 && alive[root])
    {
      TracksSizes(t, alive);
      var a, b := TwoLightest(weight, alive);
      MergeStep(t, alive, a, b);
      t := Merged(t, a, b);
      root := |weight|;
      weight := weight + [weight[a] + weight[b]];
      left, right := left + [a], right + [b];
      alive := alive[a := false][b := false] + [true];
      remaining := remaining - 1;
    }
    Ended(t, alive);
  }

  lemma {:induction false} AllAlive(alive: seq<bool>, k: nat)
    requires k <= |alive| && forall i :: 0 <= i < |alive| ==> alive[i]
    ensures CountAlive(alive, k) == k
  {
    if k > 0 {
      AllAlive(alive, k - 1);
    }
  }

  // ---- the depth walk ----

  // Nodes still to be popped: those on the stack, and everything below them.
  ghost predicate Pending(t: Merges, todo: set<nat>, nodes: seq<nat>)
    requires Finished(t)
  {
    && (forall x :: x in todo ==> x < |t.w|)
    && (forall i :: 0 <= i < |nodes| ==> nodes[i] in todo)
    && (forall i, j :: 0 <= i < j < |nodes| ==> nodes[i] != nodes[j])
    && (forall i :: 0 <= i < |nodes| ==> t.par[nodes[i]] !in todo)
    && (forall x :: x in todo ==> x in nodes || t.par[x] in todo)
    && (forall x :: 0 <= x < |t.w| && t.par[x] in todo ==> x in todo)
  }

  lemma PopLeaf(t: Merges, todo: set<nat>, nodes: seq<nat>, rest: seq<nat>, x: nat)
    requires Finished(t) && Pending(t, todo, nodes) && nodes == rest + [x] && x < t.n
    ensures Pending(t, todo - {x}, rest)
  {
    assert nodes[|rest|] == x;
    assert forall i :: 0 <= i < |rest| ==> nodes[i] == rest[i];
    forall y | y in todo - {x}
      ensures y in rest || t.par[y] in todo - {x}
    {
      assert t.par[y] != x;
    }
  }

  lemma PopInner(t: Merges, todo: set<nat>, nodes: seq<nat>, rest: seq<nat>, x: nat)
    requires Finished(t) && Pending(t, todo, nodes) && nodes == rest + [x] && t.n <= x < |t.w|
    ensures Pending(t, todo - {x}, rest + [t.left[x]] + [t.right[x]])
  {
    assert MergedAt(t, x);
    assert nodes[|rest|] == x;
    assert forall i :: 0 <= i < |rest| ==> nodes[i] == rest[i];
    var l, r := t.left[x], t.right[x];
    var next := rest + [l] + [r];
    assert next[|rest|] == l && next[|rest| + 1] == r;
    assert l !in nodes && r !in nodes;
    assert l in todo && r in todo;
    forall y | y in todo - {x}
      ensures y in next || t.par[y] in todo - {x}
    {
      if t.par[y] == x {
        assert y == l || y == r;
      }
    }
  }

  lemma {:induction false} NothingPending(t: Merges, todo: set<nat>, x: nat)
    requires Finished(t) && Pending(t, todo, []) && x < |t.w|
    ensures x !in todo
    decreases |t.w| - x
  {
    if t.par[x] < |t.w| {
      NothingPending(t, todo, t.par[x]);
    }
  }

  ghost function NodesBelow(k: nat): (r: set<nat>)
    ensures forall x: nat :: x in r <==> x < k
  {
    if k == 0 then {} else NodesBelow(k - 1) + {k - 1}
  }

  // leafOf names the symbol of each leaf, -1 for an inner node.
  ghost predicate LabelsLeaves(t: Merges, leafOf: seq<int>, syms: seq<nat>, nsym: nat) {
    && HuffmanTree.Valid(t) && |leafOf| == |t.w| && |syms| == t.n
    && (forall i :: 0 <= i < |leafOf| ==> leafOf[i] == if i < t.n then syms[i] else -1)
    && (forall i :: 0 <= i < |syms| ==> syms[i] < nsym)
    && (forall i, j :: 0 <= i < j < |syms| ==> syms[i] != syms[j])
  }

  lemma FinishedSizes(t: Merges)
    requires Finished(t) && t.n >= 1
    ensures |t.w| == |t.left| == |t.right| == |t.par| == 2 * t.n - 1
    ensures Depth(t, |t.w| - 1) == 0
  {
  }

  lemma RootPending(t: Merges)
    requires Finished(t) && t.n >= 1
    ensures Pending(t, NodesBelow(|t.w|), [|t.w| - 1])
  {
  }

  lemma PendingTop(t: Merges, todo: set<nat>, nodes: seq<nat>)
    requires Finished(t) && Pending(t, todo, nodes) && nodes != []
    ensures var x := nodes[|nodes| - 1]; x in todo && x < |t.w|
  {
  }

  lemma ChildDepths(t: Merges, u: nat)
    requires Finished(t) && t.n <= u < |t.w|
    ensures |t.left| == |t.right| == |t.w| && t.left[u] < |t.w| && t.right[u] < |t.w|
    ensures Depth(t, t.left[u]) == Depth(t, u) + 1 && Depth(t, t.right[u]) == Depth(t, u) + 1
  {
    assert MergedAt(t, u);
  }

  // Walks the tree with an explicit stack and writes each leaf's depth at its symbol.
  method WalkDepths(leafOf: seq<int>, left: seq<nat>, right: seq<nat>, root: nat, nsym: nat,
                    ghost t: Merges, ghost syms: seq<nat>)
    returns (lenOut: seq<nat>)
    requires Finished(t) && t.n >= 2 && LabelsLeaves(t, leafOf, syms, nsym)
    requires left == t.left && right == t.right && root == |t.w| - 1
    ensures |lenOut| == nsym
    ensures forall i :: 0 <= i < t.n ==> lenOut[syms[i]] == Depth(t, i)
    ensures forall s :: 0 <= s < nsym && s !in syms ==> lenOut[s] == 0
  {
    hide Finished, HuffmanTree.Valid, Depth, Pending, MergedAt;
    lenOut := seq(nsym, _ => 0);
    var nodes: seq<nat>, depths: seq<nat> := [root], [0];
    ghost var todo := NodesBelow(|t.w|);
    FinishedSizes(t);
    RootPending(t);
    while |nodes| > 0
      invariant |nodes| == |depths| && |lenOut| == nsym
      invariant Pending(t, todo, nodes)
      invariant forall i :: 0 <= i < |nodes| ==> nodes[i] < |t.w| && depths[i] == Depth(t, nodes[i])
      invariant forall i :: 0 <= i < t.n && i !in todo ==> lenOut[syms[i]] == Depth(t, i)
      invariant forall s :: 0 <= s < nsym && s !in syms ==> lenOut[s] == 0
      decreases todo
    {
      var sp := |nodes| - 1;
      var node, depth := nodes[sp], depths[sp];
      ghost var was := nodes;
      PendingTop(t, todo, nodes);
      nodes, depths := nodes[..sp], depths[..sp];
      assert was == nodes + [node];
      if leafOf[node] >= 0 {
        PopLeaf(t, todo, was, nodes, node);
        lenOut := lenOut[leafOf[node] := depth];
      } else {
        PopInner(t, todo, was, nodes, node);
        ChildDepths(t, node);
        nodes, depths := nodes + [left[node]], depths + [depth + 1];
        nodes, depths := nodes + [right[node]], depths + [depth + 1];
      }
      todo := todo - {node};
    }
    forall i | 0 <= i < t.n
      ensures lenOut[syms[i]] == Depth(t, i)
    {
      NothingPending(t, todo, i);
    }
  }

  // ---- from leaves to symbols ----

  ghost function LeafLens(syms: seq<nat>, len: Lengths): (l: seq<int>)
    requires forall i :: 0 <= i < |syms| ==> syms[i] < |len|
    ensures |l| == |syms|
  {
    seq(|syms|, i requires 0 <= i < |syms| => len[syms[i]])
  }

  ghost function LeafWeights(counts: seq<nat>, k: nat): (w: seq<nat>)
    requires k <= |counts|
    ensures |w| == |Leaves(counts, k)|
  {
    seq(|Leaves(counts, k)|, i requires 0 <= i < |Leaves(counts, k)| => counts[Leaves(counts, k)[i]])
  }

  lemma {:induction false} BridgeCost(counts: seq<nat>, len: Lengths, k: nat, w: seq<nat>)
    requires k <= |counts| == |len| && LeafWeights(counts, k) <= w
    ensures Cost(w, LeafLens(Leaves(counts, k), len), |Leaves(counts, k)|) == TotalBits(counts, len, k)
  {
    hide LeafLens, LeafWeights;
    if k > 0 {
      var ls := Leaves(counts, k - 1);
      LeafWeightsSnoc(counts, k);
      BridgeCost(counts, len, k - 1, w);
      if counts[k - 1] > 0 {
        LeafLensSnoc(counts, len, k);
        CostAppend(w, LeafLens(ls, len), len[k - 1], |ls|);
      }
    }
  }

  lemma LeafWeightsSnoc(counts: seq<nat>, k: nat)
    requires 0 < k <= |counts|
    ensures LeafWeights(counts, k) == LeafWeights(counts, k - 1) + if counts[k - 1] > 0 then [counts[k - 1]] else []
  {
  }

  lemma {:induction false} BridgeKraft(counts: seq<nat>, len: Lengths, k: nat, d: nat)
    requires k <= |counts| == |len| && Bounded(len, d)
    requires forall s :: 0 <= s < |counts| && counts[s] > 0 ==> len[s] > 0
    ensures AtMost(LeafLens(Leaves(counts, k), len), d)
    ensures KraftSum(LeafLens(Leaves(counts, k), len), |Leaves(counts, k)|, d) <= KraftTo(len, k, d)
    ensures (forall s :: 0 <= s < |counts| && counts[s] == 0 ==> len[s] == 0) ==>
              KraftSum(LeafLens(Leaves(counts, k), len), |Leaves(counts, k)|, d) == KraftTo(len, k, d)
  {
    hide LeafLens, Share, Leaves, Bounded, AtMost, KraftSum;
    LeavesSnoc(counts, k);
    if k == 0 {
      NoShare(LeafLens([], len), d);
    } else {
      var ls := Leaves(counts, k - 1);
      BridgeKraft(counts, len, k - 1, d);
      if counts[k - 1] > 0 {
        LeafLensSnoc(counts, len, k);
        OneShare(LeafLens(ls, len), len, k - 1, d);
      }
    }
  }

  lemma LeavesSnoc(counts: seq<nat>, k: nat)
    requires k <= |counts|
    ensures Leaves(counts, k) ==
              if k == 0 then []
              else if counts[k - 1] > 0 then Leaves(counts, k - 1) + [k - 1] else Leaves(counts, k - 1)
  {
  }

  lemma NoShare(l: seq<int>, d: nat)
    requires l == []
    ensures AtMost(l, d) && KraftSum(l, 0, d) == 0
  {
  }

  lemma OneShare(l: seq<int>, len: Lengths, s: nat, d: nat)
    requires AtMost(l, d) && s < |len| && Bounded(len, d) && len[s] > 0
    ensures AtMost(l + [len[s]], d) && KraftSum(l + [len[s]], |l| + 1, d) == KraftSum(l, |l|, d) + Weight(len, s, d)
  {
    KraftAppend(l, len[s], |l|, d);
    ShareIsWeight(len, s, d);
  }

  lemma LeafLensSnoc(counts: seq<nat>, len: Lengths, k: nat)
    requires 0 < k <= |counts| == |len| && counts[k - 1] > 0
    ensures LeafLens(Leaves(counts, k), len) == LeafLens(Leaves(counts, k - 1), len) + [len[k - 1]]
  {
  }

  lemma ShareIsWeight(len: Lengths, s: nat, d: nat)
    requires s < |len| && Bounded(len, d) && len[s] > 0
    ensures Share(len[s], d) == Weight(len, s, d)
  {
  }

  // The depths of the finished tree are a cheapest complete prefix code.
  lemma TreeIsOptimal(counts: seq<nat>, len: Lengths, t: Merges)
    requires |len| == |counts| <= MAXLEN + 1 && Finished(t) && t.n >= 2
    requires t.n == |Leaves(counts, |counts|)| && t.w[..t.n] == LeafWeights(counts, |counts|)
    requires forall i :: 0 <= i < t.n ==> len[Leaves(counts, |counts|)[i]] == Depth(t, i)
    requires forall s :: 0 <= s < |counts| && s !in Leaves(counts, |counts|) ==> len[s] == 0
    ensures Bounded(len, MAXLEN) && Kraft(len, MAXLEN) == Pow2(MAXLEN)
    ensures forall s :: 0 <= s < |counts| ==> (len[s] > 0 <==> counts[s] > 0)
    ensures Optimal(counts, len)
  {
    var syms := Leaves(counts, |counts|);
    forall i | 0 <= i < |t.w|
      ensures Depth(t, i) <= MAXLEN && (i < t.n ==> Depth(t, i) > 0)
    {
      DepthBound(t, i);
    }
    forall s | 0 <= s < |counts|
      ensures len[s] <= MAXLEN && (len[s] > 0 <==> counts[s] > 0)
    {
      if counts[s] > 0 {
        LeavesComplete(counts, |counts|, s);
      }
    }
    var l := DepthsAt(t, t.n);
    assert l == LeafLens(syms, len);
    BridgeKraft(counts, len, |counts|, MAXLEN);
    DepthCost(t, t.n, MAXLEN);
    BridgeCost(counts, len, |counts|, t.w);
    forall other: Lengths, d: nat | Feasible(counts, other, d)
      ensures TotalBits(counts, len, |counts|) <= TotalBits(counts, other, |counts|)
    {
      CheaperThan(counts, other, d, t);
    }
  }

  lemma CheaperThan(counts: seq<nat>, other: Lengths, d: nat, t: Merges)
    requires Feasible(counts, other, d) && Finished(t) && t.n >= 2
    requires t.n == |Leaves(counts, |counts|)| && t.w[..t.n] == LeafWeights(counts, |counts|)
    ensures MergeSum(t.w, t.n) <= TotalBits(counts, other, |counts|)
  {
    var l := LeafLens(Leaves(counts, |counts|), other);
    BridgeKraft(counts, other, |counts|, d);
    BridgeCost(counts, other, |counts|, t.w);
    LowerBound(t, l, t.n, d);
  }

  // huff_build_lengths: the code lengths of a histogram.
  method BuildLengths(counts: seq<nat>) returns (lenOut: Lengths)
    requires |counts| <= MAXLEN + 1
    ensures |lenOut| == |counts| && Bounded(lenOut, MAXLEN)
    ensures forall s :: 0 <= s < |counts| ==> (lenOut[s] > 0 <==> counts[s] > 0)
    ensures |Leaves(counts, |counts|)| >= 2 ==>
              Kraft(lenOut, MAXLEN) == Pow2(MAXLEN) && Optimal(counts, lenOut)
    ensures |Leaves(counts, |counts|)| == 1 ==> lenOut[Leaves(counts, |counts|)[0]] == 1
  {
    hide LeafWeights, Kraft, Optimal, Bounded, Finished, LabelsLeaves;
    lenOut := seq(|counts|, _ => 0);
    var weight, leafOf := CollectLeaves(counts);
    var n := |leafOf|;
    ghost var syms := Leaves(counts, |counts|);
    if n <= 1 {
      FewLeaves(counts);
      if n == 1 {
        lenOut := lenOut[leafOf[0] := 1];
      }
      ShortLengths(lenOut);
      return;
    }
    var left, right, root, t := MergeAll(weight);
    FinishedSizes(t);
    var labels := leafOf + seq(n - 1, _ => -1);
    Labelled(counts, t, labels);
    lenOut := WalkDepths(labels, left, right, root, |counts|, t, syms);
    TreeIsOptimal(counts, lenOut, t);
  }

  // The leaves in order of creation, with their weights.
  method CollectLeaves(counts: seq<nat>) returns (weight: seq<nat>, leafOf: seq<int>)
    ensures weight == LeafWeights(counts, |counts|) && |leafOf| == |Leaves(counts, |counts|)|
    ensures forall i :: 0 <= i < |leafOf| ==> leafOf[i] == Leaves(counts, |counts|)[i]
  {
    weight, leafOf := [], [];
    for s := 0 to |counts|
      invariant |leafOf| == |Leaves(counts, s)|
      invariant forall i :: 0 <= i < |leafOf| ==> leafOf[i] == Leaves(counts, s)[i]
      invariant weight == LeafWeights(counts, s)
    {
      if counts[s] > 0 {
        weight, leafOf := weight + [counts[s]], leafOf + [s];
      }
    }
  }

  lemma FewLeaves(counts: seq<nat>)
    requires |Leaves(counts, |counts|)| <= 1
    ensures forall s :: 0 <= s < |counts| ==>
              (counts[s] > 0 <==> |Leaves(counts, |counts|)| == 1 && s == Leaves(counts, |counts|)[0])
  {
    forall s | 0 <= s < |counts| && counts[s] > 0
      ensures |Leaves(counts, |counts|)| == 1 && s == Leaves(counts, |counts|)[0]
    {
      LeavesComplete(counts, |counts|, s);
    }
  }

  lemma ShortLengths(len: Lengths)
    requires forall s :: 0 <= s < |len| ==> len[s] <= 1
    ensures Bounded(len, MAXLEN)
  {
  }

  lemma Labelled(counts: seq<nat>, t: Merges, labels: seq<int>)
    requires Finished(t) && t.n == |Leaves(counts, |counts|)| && |labels| == |t.w|
    requires forall i :: 0 <= i < |labels| ==> labels[i] == if i < t.n then Leaves(counts, |counts|)[i] else -1
    ensures LabelsLeaves(t, labels, Leaves(counts, |counts|), |counts|)
  {
  }
}
