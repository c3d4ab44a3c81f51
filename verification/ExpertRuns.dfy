/** What the main thread's visits to the layers do, whatever the pilot does meanwhile: every expert
    routed to is multiplied once, in order; a visit can always be finished; and what is given up for
    a new expert is what has not been used for longest. */
module ExpertRuns {
  import opened ExpertCache

  // An expert of a layer.
  type Task = (nat, nat)

  function Tasks(l: nat, experts: seq<nat>): (ts: seq<Task>)
    ensures |ts| == |experts| && forall i :: 0 <= i < |ts| ==> ts[i] == (l, experts[i])
  {
    seq(|experts|, i requires 0 <= i < |experts| => (l, experts[i]))
  }

  // ---- everything routed to is multiplied ----

  // What the action multiplies.
  function Multiplied(s: State, x: Action): seq<Task> {
    if x.MainMultiply? && s.main.Multiplying? && s.main.j < |s.main.block| then [(s.main.l, s.main.block[s.main.j])] else []
  }

  // What the action routes to: the experts of a layer just reached or done with.
  function Routed(s: State, x: Action): seq<Task> {
    if x.MainRoute? && s.main.Owning? && s.main.todo == [] && Distinct(x.experts) then Tasks(s.main.l, x.experts) else []
  }

  ghost function Log(s: State, xs: seq<Action>): seq<Task>
    requires Shape(s)
    decreases |xs|
  {
    if xs == [] then [] else
      StepShape(s, xs[0]);
      Multiplied(s, xs[0]) + Log(Step(s, xs[0]), xs[1..])
  }

  ghost function AllRouted(s: State, xs: seq<Action>): seq<Task>
    requires Shape(s)
    decreases |xs|
  {
    if xs == [] then [] else
      StepShape(s, xs[0]);
      Routed(s, xs[0]) + AllRouted(Step(s, xs[0]), xs[1..])
  }

  // What the main thread still has to multiply.
  function Pending(m: Main): seq<Task> {
    match m
    case Outside => []
    case Waiting(_) => []
    case Owning(l, todo) => Tasks(l, todo)
    case Resolving(l, todo, block, _, _) => Tasks(l, block + todo)
    case Loading(l, todo, block, _, _, _) => Tasks(l, block + todo)
    case Multiplying(l, todo, block, _, _, j) => if j <= |block| then Tasks(l, block[j..] + todo) else []
    case Promoting(l, todo, _, _, _) => Tasks(l, todo)
  }

  lemma TasksHead(l: nat, block: seq<nat>, todo: seq<nat>, j: nat)
    requires j <= |block|
    ensures j < |block| ==> Tasks(l, block[j..] + todo) == [(l, block[j])] + Tasks(l, block[j + 1..] + todo)
    ensures j == |block| ==> block[j..] + todo == todo
    ensures block[0..] + todo == block + todo
  {
  }

  // Nothing is lost and nothing done twice in a step of either thread.
  lemma StepConserves(s: State, x: Action)
    requires Inv(s)
    ensures Shape(Step(s, x)) && Multiplied(s, x) + Pending(Step(s, x).main) == Pending(s.main) + Routed(s, x)
  {
    StepShape(s, x);
    if ByPilot(x) {
      PilotLeavesMain(s, x);
      assert [] + Pending(s.main) == Pending(s.main) + [];
    } else {
      MainConserves(s, x);
    }
  }

  lemma PilotLeavesMain(s: State, x: Action)
    requires Shape(s) && ByPilot(x)
    ensures Step(s, x).main == s.main && Multiplied(s, x) == [] && Routed(s, x) == []
  {
  }

  lemma MainConserves(s: State, x: Action)
    requires Inv(s) && !ByPilot(x)
    ensures Multiplied(s, x) + Pending(Step(s, x).main) == Pending(s.main) + Routed(s, x)
  {
    hide Inv, Find, Distinct, Pending, Resolve, Load, Multiply, Promote;
    ShapeOf(s);
    match x {
      case MainBlock => BlockConserves(s);
      case MainRoute(experts) => RouteConserves(s, experts);
      case MainMultiply => MultiplyConserves(s);
      case MainLoad(q) => LoadConserves(s, q);
      case MainResolve => ResolveConserves(s);
      case MainPromote => PromoteConserves(s);
      case MainReset => OutsideConserves(s, x);
      case MainWant(_) => OutsideConserves(s, x);
      case MainAcquire => OutsideConserves(s, x);
      case _ =>
    }
    assert [] + Pending(s.main) == Pending(s.main) == Pending(s.main) + [];
    assert [] + Pending(Step(s, x).main) == Pending(Step(s, x).main);
  }

  lemma BlockConserves(s: State)
    requires Shape(s)
    ensures Pending(Step(s, MainBlock).main) == Pending(s.main)
  {
    match s.main {
      case Owning(l, todo) =>
        var nb := if |todo| < BLOCK then |todo| else BLOCK;
        assert todo[..nb] + todo[nb..] == todo;
      case _ =>
    }
  }

  lemma RouteConserves(s: State, experts: seq<nat>)
    requires Shape(s)
    ensures Pending(Step(s, MainRoute(experts)).main) == Pending(s.main) + Routed(s, MainRoute(experts))
  {
    hide Distinct;
    assert Pending(s.main) + [] == Pending(s.main);
    assert s.main.Owning? && s.main.todo == [] ==> Pending(s.main) == [];
  }

  lemma MultiplyConserves(s: State)
    requires Inv(s)
    ensures Multiplied(s, MainMultiply) + Pending(Multiply(s).main) == Pending(s.main)
  {
    hide LayerOk, PilotOk, Distinct, BlockOk, UsesOk;
    match s.main {
      case Multiplying(l, todo, block, _, _, j) => TasksHead(l, block, todo, j);
      case _ =>
    }
  }

  lemma LoadConserves(s: State, q: nat)
    requires Shape(s)
    ensures Pending(Load(s, q).main) == Pending(s.main)
  {
    match s.main {
      case Loading(l, todo, block, _, _, _) => TasksHead(l, block, todo, 0);
      case _ =>
    }
  }

  lemma ResolveConserves(s: State)
    requires Shape(s)
    ensures Pending(Resolve(s).main) == Pending(s.main)
  {
    hide Find;
  }

  lemma PromoteConserves(s: State)
    requires Shape(s)
    ensures Pending(Promote(s).main) == Pending(s.main)
  {
    hide Victim;
  }

  lemma OutsideConserves(s: State, x: Action)
    requires Shape(s) && (x.MainReset? || x.MainWant? || x.MainAcquire?)
    ensures Pending(Step(s, x).main) == Pending(s.main)
  {
  }

  // In every run, what has been multiplied and what is pending are what was pending and what has
  // been routed to since, in order and once each.
  lemma {:induction false} RunConserves(s: State, xs: seq<Action>)
    requires Inv(s)
    ensures Shape(s) && Shape(Run(s, xs)) && Log(s, xs) + Pending(Run(s, xs).main) == Pending(s.main) + AllRouted(s, xs)
    decreases |xs|
  {
    hide Inv, Step, Pending, Multiplied, Routed;
    ShapeOf(s);
    if xs == [] {
      assert [] + Pending(s.main) == Pending(s.main) + [];
    } else {
      var t := Step(s, xs[0]);
      StepKeeps(s, xs[0]);
      StepConserves(s, xs[0]);
      RunConserves(t, xs[1..]);
      Swap(Multiplied(s, xs[0]), Log(t, xs[1..]), Pending(Run(s, xs).main), Pending(t.main), AllRouted(t, xs[1..]),
           Pending(s.main), Routed(s, xs[0]));
    }
  }

  lemma Swap(a: seq<Task>, b: seq<Task>, p: seq<Task>, q: seq<Task>, r: seq<Task>, u: seq<Task>, v: seq<Task>)
    requires b + p == q + r && a + q == u + v
    ensures (a + b) + p == u + (v + r)
  {
    assert (a + b) + p == a + (b + p) == (a + q) + r == u + (v + r);
  }

  // Whenever the main thread is outside the layers, every expert routed to so far has been
  // multiplied, in order, once, whatever the pilot did.
  lemma AllMultiplied(s: State, xs: seq<Action>)
    requires Start(s) && Run(s, xs).main.Outside?
    ensures Log(s, xs) == AllRouted(s, xs)
  {
    StartKeeps(s);
    RunConserves(s, xs);
    hide Run, Log, AllRouted, Inv;
    assert Log(s, xs) + [] == Log(s, xs) && [] + AllRouted(s, xs) == AllRouted(s, xs);
  }

  lemma StartKeeps(s: State)
    requires Start(s)
    ensures Inv(s)
  {
  }

  // ---- a visit can always be finished ----

  ghost predicate Working(m: Main) {
    !m.Outside? && !m.Waiting?
  }

  // How far the visit has come: experts of later blocks, the stage of this one, what is left of it.
  function Later(m: Main): nat {
    match m
    case Owning(_, todo) => |todo|
    case Resolving(_, todo, _, _, _) => |todo|
    case Loading(_, todo, _, _, _, _) => |todo|
    case Multiplying(_, todo, _, _, _, _) => |todo|
    case Promoting(_, todo, _, _, _) => |todo|
    case _ => 0
  }

  function Stage(m: Main): nat {
    match m
    case Resolving(_, _, _, _, _) => 4
    case Loading(_, _, _, _, _, _) => 3
    case Multiplying(_, _, _, _, _, _) => 2
    case Promoting(_, _, _, _, _) => 1
    case _ => 0
  }

  ghost function NotLoaded(misses: seq<nat>, loaded: set<nat>): set<nat> {
    set q: nat | q < |misses| && q !in loaded
  }

  ghost function Rest(m: Main): int {
    match m
    case Resolving(_, _, block, uses, _) => |block| - |uses|
    case Loading(_, _, _, _, misses, loaded) => |NotLoaded(misses, loaded)|
    case Multiplying(_, _, block, _, _, j) => |block| - j
    case Promoting(_, _, _, misses, a) => |misses| - a
    case _ => 0
  }

  lemma RestIsNat(s: State)
    requires Inv(s)
    ensures Rest(s.main) >= 0
  {
    hide LayerOk, PilotOk, Distinct, Owns;
  }

  lemma NextLoad(misses: seq<nat>, loaded: set<nat>) returns (x: Action)
    ensures x.MainLoad? && x.q <= |misses|
    ensures x.q < |misses| ==> |NotLoaded(misses, loaded + {x.q})| < |NotLoaded(misses, loaded)|
    ensures x.q == |misses| ==> forall i :: 0 <= i < |misses| ==> i in loaded
  {
    if NotLoaded(misses, loaded) == {} {
      x := MainLoad(|misses|);
      assert forall i: nat :: i < |misses| && i !in loaded ==> i in NotLoaded(misses, loaded);
    } else {
      var q :| q in NotLoaded(misses, loaded);
      x := MainLoad(q);
      assert NotLoaded(misses, loaded + {q}) == NotLoaded(misses, loaded) - {q};
    }
  }

  // There is a next step, and it brings the end nearer.
  lemma GoesOn(s: State) returns (x: Action)
    requires Inv(s) && Working(s.main) && !(s.main.Owning? && s.main.todo == [])
    ensures !ByPilot(x) && !x.MainReset? && !x.MainRoute? && Shape(Step(s, x)) && Working(Step(s, x).main)
    ensures var m, n := s.main, Step(s, x).main;
            || Later(n) < Later(m)
            || (Later(n) == Later(m) && (Stage(n) < Stage(m) || (Stage(n) == Stage(m) && Rest(n) < Rest(m))))
  {
    hide LayerOk, PilotOk, Distinct, Find, UsesOk, InWorkingSet, Absent, Victim, Take, EndRead, Publish;
    match s.main {
      case Owning(_, _) => x := MainBlock;
      case Resolving(_, _, _, _, _) => x := MainResolve;
      case Loading(_, _, _, _, misses, loaded) =>
        x := NextLoad(misses, loaded);
      case Multiplying(_, _, _, _, _, _) => x := MainMultiply;
      case Promoting(_, _, _, _, _) => x := MainPromote;
    }
    StepShape(s, x);
  }

  // From anywhere in a visit the main thread can leave the layer by its own steps.
  lemma {:induction false} VisitEnds(s: State) returns (xs: seq<Action>)
    requires Inv(s) && Working(s.main)
    ensures Shape(s) && Run(s, xs).main == Outside && forall i :: 0 <= i < |xs| ==> !ByPilot(xs[i]) && !xs[i].MainRoute?
    decreases Later(s.main), Stage(s.main), Rest(s.main)
  {
    hide Inv;
    ShapeOf(s);
    RestIsNat(s);
    if s.main.Owning? && s.main.todo == [] {
      xs := [MainBlock];
      StepShape(s, MainBlock);
      assert Run(Step(s, MainBlock), xs[1..]) == Step(s, MainBlock);
    } else {
      var x := GoesOn(s);
      StepKeeps(s, x);
      RestIsNat(Step(s, x));
      var more := VisitEnds(Step(s, x));
      xs := [x] + more;
      assert xs[1..] == more;
    }
  }

  // A block is the next 64 experts, or all that are left.
  lemma NextBlock(s: State, l: nat, todo: seq<nat>)
    requires Shape(s) && s.main == Owning(l, todo) && todo != []
    ensures var m := Step(s, MainBlock).main;
            m.Resolving? && m.l == l && m.block + m.todo == todo && m.uses == [] && m.misses == []
            && |m.block| == if |todo| < 64 then |todo| else 64
  {
    var nb := if |todo| < BLOCK then |todo| else BLOCK;
    assert todo == todo[..nb] + todo[nb..];
  }

  // ---- least recently used ----

  // No slot was used later than now.
  ghost predicate ClockOk(s: State) {
    forall l, z :: 0 <= l < |s.layers| && 0 <= z < |s.layers[l].lru| ==> s.layers[l].lru[z].used <= s.clock
  }

  lemma StepKeepsClock(s: State, x: Action)
    requires Inv(s) && ClockOk(s)
    ensures Shape(Step(s, x)) && ClockOk(Step(s, x)) && s.clock <= Step(s, x).clock
  {
    hide LayerOk, PilotOk, Find, Distinct;
    StepShape(s, x);
  }

  // A new expert takes a slot not yet published, or the published one not used for longest.
  lemma OldestGoes(lc: Layer)
    requires lc.n <= |lc.lru| && 0 < |lc.lru|
    ensures var z := Victim(lc);
            if lc.n < |lc.lru| then z == lc.n
            else (forall y :: 0 <= y < lc.n ==> lc.lru[z].used <= lc.lru[y].used)
                 && forall y :: 0 <= y < z ==> lc.lru[z].used < lc.lru[y].used
  {
    if lc.n == |lc.lru| {
      OldestFirst(lc.lru, lc.n);
    }
  }

  lemma {:induction false} OldestFirst(slots: seq<Slot>, n: nat)
    requires 0 < n <= |slots|
    ensures forall y :: 0 <= y < Oldest(slots, n) ==> slots[Oldest(slots, n)].used < slots[y].used
  {
    if n > 1 {
      OldestFirst(slots, n - 1);
    }
  }

  // The expert is in a visible slot, used later than every other one of its layer.
  ghost predicate Newest(s: State, l: nat, eid: nat) {
    && l < |s.layers| && s.layers[l].n <= |s.layers[l].lru|
    && exists z :: 0 <= z < s.layers[l].n && s.layers[l].lru[z].eid == eid
         && forall y :: 0 <= y < s.layers[l].n && y != z ==> s.layers[l].lru[y].used < s.layers[l].lru[z].used
  }

  // An expert found in the LRU becomes the newest of its layer.
  lemma TouchedIsNewest(s: State)
    requires Inv(s) && ClockOk(s) && s.main.Resolving? && |s.main.uses| < |s.main.block|
    ensures var l, eid := s.main.l, s.main.block[|s.main.uses|];
            && l < |s.layers| && Shape(Step(s, MainResolve))
            && (Find(s.layers[l].pin, |s.layers[l].pin|, eid) == |s.layers[l].pin| && !Absent(s.layers[l].lru, s.layers[l].n, eid)
                ==> Newest(Step(s, MainResolve), l, eid))
  {
    hide LayerOk, PilotOk;
    StepShape(s, MainResolve);
    var l, eid := s.main.l, s.main.block[|s.main.uses|];
    var lc, t := s.layers[s.main.l], Step(s, MainResolve);
    var z := Find(lc.lru, lc.n, eid);
    if z < lc.n && Find(lc.pin, |lc.pin|, eid) == |lc.pin| {
      assert t.layers[l].lru[z].eid == eid;
    }
  }

  // An expert is used where it is: pinned, else in the LRU, and missed only if it is in neither.
  lemma UsedWhereItIs(s: State)
    requires Inv(s) && s.main.Resolving? && |s.main.uses| < |s.main.block|
    ensures var l, eid := s.main.l, s.main.block[|s.main.uses|];
            && l < |s.layers| && Shape(Step(s, MainResolve)) && Step(s, MainResolve).main.Resolving?
            && var t := Step(s, MainResolve).main;
               && |t.uses| == |s.main.uses| + 1
               && match t.uses[|s.main.uses|]
                  case Pinned(z) => z < |s.layers[l].pin| && s.layers[l].pin[z].eid == eid
                  case Cached(z) => z < s.layers[l].n && s.layers[l].lru[z].eid == eid
                                    && Absent(s.layers[l].pin, |s.layers[l].pin|, eid)
                  case Missed(q) => q == |s.main.misses| && t.misses == s.main.misses + [|s.main.uses|]
                                    && Absent(s.layers[l].pin, |s.layers[l].pin|, eid)
                                    && Absent(s.layers[l].lru, s.layers[l].n, eid)
  {
    hide LayerOk, PilotOk, Distinct;
    StepShape(s, MainResolve);
  }

  // A miss that has been used is put in front: it becomes the newest of its layer, and the
  // working set keeps what it replaces.
  lemma PromotedIsNewest(s: State)
    requires Inv(s) && ClockOk(s) && s.main.Promoting? && s.main.a < |s.main.misses| && s.main.a < s.cap
    ensures var l, q := s.main.l, |s.main.misses| - 1 - s.main.a;
            && l < |s.layers| && s.main.misses[q] < |s.main.block| && Shape(Step(s, MainPromote))
            && Newest(Step(s, MainPromote), l, s.main.block[s.main.misses[q]])
            && Step(s, MainPromote).main == s.main.(a := s.main.a + 1)
            && Step(s, MainPromote).ws[q] == s.layers[l].lru[Victim(s.layers[l])]
  {
    hide LayerOk, PilotOk, Distinct;
    StepShape(s, MainPromote);
    var l, q := s.main.l, |s.main.misses| - 1 - s.main.a;
    assert InWorkingSet(s, l, s.main.block, s.main.misses, q);
    var z, t := Victim(s.layers[l]), Step(s, MainPromote);
    assert t.layers[l].lru[z].eid == s.main.block[s.main.misses[q]];
  }

  // Promoting ends when every miss has been put in front, or as many as the cache has slots.
  lemma PromotesAll(s: State)
    requires Inv(s) && s.main.Promoting?
    ensures Shape(Step(s, MainPromote))
    ensures Step(s, MainPromote).main.Owning? <==> s.main.a >= |s.main.misses| || s.main.a >= s.cap
  {
    hide LayerOk, PilotOk, Distinct;
    StepShape(s, MainPromote);
  }

  // Between two forwards the pilot may take experts of every layer again.
  lemma ResetOpens(s: State, l: nat, eid: nat)
    requires Inv(s) && ClockOk(s) && s.main.Outside? && s.pilot.Idle? && l < |s.layers| && !Resident(s.layers[l], eid)
    ensures Shape(Step(s, MainReset)) && Shape(Step(Step(s, MainReset), PilotTake(l, eid)))
    ensures Step(Step(s, MainReset), PilotTake(l, eid)).inflight == l
  {
    hide LayerOk, PilotOk;
    StepKeeps(s, MainReset);
    StepKeepsClock(s, MainReset);
    PilotBrings(Step(s, MainReset), l, eid);
  }

  // A free pilot asked for an expert of a layer still ahead that is not resident makes it so.
  lemma PilotBrings(s: State, l: nat, eid: nat)
    requires Inv(s) && ClockOk(s) && s.pilot.Idle? && s.cur < l < |s.layers| && !Resident(s.layers[l], eid)
    ensures var t := Step(s, PilotTake(l, eid));
            && Shape(t) && t.inflight == l && Shape(Step(t, PilotRead(true)))
            && Newest(Step(Step(t, PilotRead(true)), PilotPublish), l, eid)
  {
    hide LayerOk, PilotOk, Distinct, MainOk;
    StepShape(s, PilotTake(l, eid));
    var t := Step(s, PilotTake(l, eid));
    StepShape(t, PilotRead(true));
    var u := Step(t, PilotRead(true));
    StepShape(u, PilotPublish);
    var v, z := Step(u, PilotPublish), Victim(s.layers[l]);
    assert v.layers[l].lru[z].eid == eid;
  }
}
