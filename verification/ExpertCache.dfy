/** The expert cache of c/glm.c as a state machine: the main thread resolves, loads, multiplies and
    promotes experts of the layer it owns, while the pilot worker loads predicted experts into the
    caches of later layers. Every step below is atomic under the lock or touches only what its
    thread owns; any interleaving of them is a run. */
module ExpertCache {

  const BLOCK := 64
  const NOBODY := -1

  // The contents of a slab: being overwritten, or an expert's weights.
  datatype Weights = Junk | Of(layer: nat, eid: nat)

  datatype Slot = Slot(eid: int, w: Weights, used: nat)

  // The slots of one layer: pinned ones, and the LRU of which the first n are published.
  datatype Layer = Layer(pin: seq<Slot>, lru: seq<Slot>, n: nat)

  // Where a resolved expert is.
  datatype Use = Pinned(z: nat) | Cached(z: nat) | Missed(q: nat)

  // What the pilot worker is doing: nothing, reading an expert into a slot, or holding the result.
  datatype Pilot =
    | Idle
    | Reading(layer: nat, eid: nat, slot: nat, isNew: bool)
    | Read(layer: nat, eid: nat, slot: nat, isNew: bool, ok: bool)

  // What the main thread is doing. todo are the experts of later blocks; misses are block indices.
  datatype Main =
    | Outside
    | Waiting(l: nat)
    | Owning(l: nat, todo: seq<nat>)
    | Resolving(l: nat, todo: seq<nat>, block: seq<nat>, uses: seq<Use>, misses: seq<nat>)
    | Loading(l: nat, todo: seq<nat>, block: seq<nat>, uses: seq<Use>, misses: seq<nat>, loaded: set<nat>)
    | Multiplying(l: nat, todo: seq<nat>, block: seq<nat>, uses: seq<Use>, misses: seq<nat>, j: nat)
    | Promoting(l: nat, todo: seq<nat>, block: seq<nat>, misses: seq<nat>, a: nat)

  datatype State = State(cap: nat, layers: seq<Layer>, ws: seq<Slot>, clock: nat,
                         cur: int, inflight: int, pilot: Pilot, main: Main)

  // ---- slots of a layer ----

  // The first of the first n slots that holds eid, or n.
  function Find(slots: seq<Slot>, n: nat, eid: nat): (z: nat)
    requires n <= |slots|
    ensures z <= n && (z < n ==> slots[z].eid == eid) && forall y :: 0 <= y < z ==> slots[y].eid != eid
  {
    FindFrom(slots, n, eid, 0)
  }

  function FindFrom(slots: seq<Slot>, n: nat, eid: nat, y: nat): (z: nat)
    requires y <= n <= |slots| && forall x :: 0 <= x < y ==> slots[x].eid != eid
    ensures z <= n && (z < n ==> slots[z].eid == eid) && forall x :: 0 <= x < z ==> slots[x].eid != eid
    decreases n - y
  {
    if y == n || slots[y].eid == eid then y else FindFrom(slots, n, eid, y + 1)
  }

  // The first least recently used of the first n slots.
  function Oldest(slots: seq<Slot>, n: nat): (z: nat)
    requires 0 < n <= |slots|
    ensures z < n && forall y :: 0 <= y < n ==> slots[z].used <= slots[y].used
  {
    if n == 1 then 0 else
      var z := Oldest(slots, n - 1);
      if slots[n - 1].used < slots[z].used then n - 1 else z
  }

  // Where a new expert goes: behind the published slots while there is room, else over the oldest.
  function Victim(lc: Layer): (z: nat)
    requires lc.n <= |lc.lru| && 0 < |lc.lru|
    ensures z < |lc.lru| && (lc.n < |lc.lru| ==> z == lc.n) && (lc.n == |lc.lru| ==> z < lc.n)
  {
    if lc.n < |lc.lru| then lc.n else Oldest(lc.lru, lc.n)
  }

  predicate Resident(lc: Layer, eid: nat)
    requires lc.n <= |lc.lru|
  {
    Find(lc.pin, |lc.pin|, eid) < |lc.pin| || Find(lc.lru, lc.n, eid) < lc.n
  }

  // ---- steps ----

  datatype Action =
    | PilotTake(layer: nat, eid: nat)
    | PilotRead(ok: bool)
    | PilotPublish
    | MainReset
    | MainWant(l: nat)
    | MainAcquire
    | MainRoute(experts: seq<nat>)
    | MainBlock
    | MainResolve
    | MainLoad(q: nat)
    | MainMultiply
    | MainPromote

  predicate Distinct(ids: seq<nat>) {
    forall i, j :: 0 <= i < j < |ids| ==> ids[i] != ids[j]
  }

  // The shape that never changes: one cache of cap slots per layer, and the working set.
  ghost predicate Shape(s: State) {
    && s.cap > 0 && |s.ws| == BLOCK
    && forall l :: 0 <= l < |s.layers| ==> |s.layers[l].lru| == s.cap && s.layers[l].n <= s.cap
  }

  function SetSlot(s: State, l: nat, z: nat, x: Slot): State
    requires l < |s.layers| && z < |s.layers[l].lru|
  {
    s.(layers := s.layers[l := s.layers[l].(lru := s.layers[l].lru[z := x])])
  }

  // The pilot's first critical section: drop a layer the main thread has reached, skip a resident
  // expert, else choose and hide a slot and mark the layer in flight. The slab is overwritten from
  // here on.
  function Take(s: State, l: nat, eid: nat): State
    requires Shape(s)
  {
    if s.pilot.Idle? && l < |s.layers| && l > s.cur && !Resident(s.layers[l], eid) then
      var z := Victim(s.layers[l]);
      var hidden := s.layers[l].lru[z].(eid := -1, w := Junk);
      SetSlot(s, l, z, hidden).(inflight := l, pilot := Reading(l, eid, z, z == s.layers[l].n))
    else s
  }

  // The read ends, off the lock: the expert's weights and id are in the slot, or it stays hidden.
  function EndRead(s: State, ok: bool): State
    requires Shape(s)
  {
    match s.pilot
    case Reading(l, eid, z, isNew) =>
      if l < |s.layers| && z < s.cap then
        var done := s.(pilot := Read(l, eid, z, isNew, ok));
        if ok then SetSlot(done, l, z, s.layers[l].lru[z].(eid := eid, w := Of(l, eid))) else done
      else s
    case _ => s
  }

  // The second critical section: publish, and clear the in-flight mark.
  function Publish(s: State): State
    requires Shape(s)
  {
    match s.pilot
    case Read(l, eid, z, isNew, ok) =>
      if l < |s.layers| && z < s.cap then
        var idle := s.(inflight := NOBODY, pilot := Idle);
        if !ok then idle else
          var lc := s.layers[l].(lru := s.layers[l].lru[z := s.layers[l].lru[z].(used := s.clock + 1)]);
          idle.(clock := s.clock + 1, layers := s.layers[l := if isNew then lc.(n := z + 1) else lc])
      else s
    case _ => s
  }

  // Looks the next expert of the block up: pinned, cached, or a miss to be loaded.
  function Resolve(s: State): State
    requires Shape(s)
  {
    match s.main
    case Resolving(l, todo, block, uses, misses) =>
      if l >= |s.layers| then s
      else if |uses| >= |block| then s.(main := Loading(l, todo, block, uses, misses, {}))
      else
        var lc, eid := s.layers[l], block[|uses|];
        var p, z := Find(lc.pin, |lc.pin|, eid), Find(lc.lru, lc.n, eid);
        if p < |lc.pin| then s.(main := Resolving(l, todo, block, uses + [Pinned(p)], misses))
        else if z < lc.n then
          SetSlot(s, l, z, lc.lru[z].(used := s.clock + 1))
            .(clock := s.clock + 1, main := Resolving(l, todo, block, uses + [Cached(z)], misses))
        else s.(main := Resolving(l, todo, block, uses + [Missed(|misses|)], misses + [|uses|]))
    case _ => s
  }

  // One of the parallel blocking loads of the misses.
  function Load(s: State, q: nat): State
    requires Shape(s)
  {
    match s.main
    case Loading(l, todo, block, uses, misses, loaded) =>
      if q < |misses| && q < BLOCK && misses[q] < |block| then
        s.(ws := s.ws[q := s.ws[q].(eid := block[misses[q]], w := Of(l, block[misses[q]]))],
           main := Loading(l, todo, block, uses, misses, loaded + {q}))
      else if forall i :: 0 <= i < |misses| ==> i in loaded then
        s.(main := Multiplying(l, todo, block, uses, misses, 0))
      else s
    case _ => s
  }

  // Multiplies by the next expert of the block, reading its slot.
  function Multiply(s: State): State {
    match s.main
    case Multiplying(l, todo, block, uses, misses, j) =>
      if j < |block| then s.(main := Multiplying(l, todo, block, uses, misses, j + 1))
      else s.(main := Promoting(l, todo, block, misses, 0))
    case _ => s
  }

  // Swaps the next missed expert from the working set into the LRU, newest miss first.
  function Promote(s: State): State
    requires Shape(s)
  {
    match s.main
    case Promoting(l, todo, block, misses, a) =>
      if l >= |s.layers| || |misses| > BLOCK then s
      else if a < |misses| && a < s.cap then
        var q, z, lc := |misses| - 1 - a, Victim(s.layers[l]), s.layers[l];
        var next := lc.(lru := lc.lru[z := s.ws[q].(used := s.clock + 1)], n := if lc.n < s.cap then lc.n + 1 else lc.n);
        s.(layers := s.layers[l := next], ws := s.ws[q := lc.lru[z]], clock := s.clock + 1,
           main := Promoting(l, todo, block, misses, a + 1))
      else s.(main := Owning(l, todo))
    case _ => s
  }

  function Step(s: State, x: Action): State
    requires Shape(s)
  {
    match x
    case PilotTake(l, eid) => Take(s, l, eid)
    case PilotRead(ok) => EndRead(s, ok)
    case PilotPublish => Publish(s)
    case MainReset => if s.main.Outside? then s.(cur := -1) else s
    case MainWant(l) => if s.main.Outside? && l < |s.layers| then s.(main := Waiting(l)) else s
    case MainAcquire =>
      (match s.main
       case Waiting(l) => if s.inflight != l then s.(cur := l, main := Owning(l, [])) else s.(cur := l)
       case _ => s)
    case MainRoute(experts) =>
      (match s.main
       case Owning(l, todo) => if todo == [] && Distinct(experts) then s.(main := Owning(l, experts)) else s
       case _ => s)
    case MainBlock =>
      (match s.main
       case Owning(l, todo) =>
         if todo == [] then s.(main := Outside)
         else
           var nb := if |todo| < BLOCK then |todo| else BLOCK;
           s.(main := Resolving(l, todo[nb..], todo[..nb], [], []))
       case _ => s)
    case MainResolve => Resolve(s)
    case MainLoad(q) => Load(s, q)
    case MainMultiply => Multiply(s)
    case MainPromote => Promote(s)
  }

  function Run(s: State, xs: seq<Action>): State
    requires Shape(s)
    decreases |xs|
  {
    if xs == [] then s else
      StepShape(s, xs[0]);
      Run(Step(s, xs[0]), xs[1..])
  }

  lemma StepShape(s: State, x: Action)
    requires Shape(s)
    ensures Shape(Step(s, x)) && Step(s, x).cap == s.cap && |Step(s, x).layers| == |s.layers|
  {
  }

  // ---- the invariant ----

  // A visible slot holds the expert it names.
  predicate Holds(x: Slot, l: nat) {
    x.eid >= 0 ==> x.w == Of(l, x.eid)
  }

  ghost predicate AllHold(slots: seq<Slot>, n: nat, l: nat)
    requires n <= |slots|
  {
    forall z :: 0 <= z < n ==> Holds(slots[z], l)
  }

  // No expert is visible twice.
  ghost predicate NoTwice(slots: seq<Slot>, n: nat)
    requires n <= |slots|
  {
    forall y, z :: 0 <= y < z < n && slots[y].eid >= 0 ==> slots[y].eid != slots[z].eid
  }

  ghost predicate LayerOk(lc: Layer, l: nat, cap: nat) {
    && |lc.lru| == cap && lc.n <= cap
    && AllHold(lc.pin, |lc.pin|, l) && AllHold(lc.lru, lc.n, l) && NoTwice(lc.lru, lc.n)
  }

  ghost predicate Absent(slots: seq<Slot>, n: nat, eid: nat)
    requires n <= |slots|
  {
    forall z :: 0 <= z < n ==> slots[z].eid != eid
  }

  // The slot the pilot works on: hidden while being read, complete once read, and its expert is
  // nowhere else in the layer.
  ghost predicate Claim(s: State, l: nat, eid: nat, z: nat, isNew: bool, done: bool) {
    && l < |s.layers| && s.inflight == l && LayerOk(s.layers[l], l, s.cap)
    && z < s.cap && (if isNew then z == s.layers[l].n else z < s.layers[l].n)
    && (forall y :: 0 <= y < s.layers[l].n && y != z ==> s.layers[l].lru[y].eid != eid)
    && (if done then s.layers[l].lru[z].eid == eid && s.layers[l].lru[z].w == Of(l, eid)
        else s.layers[l].lru[z].eid == -1)
  }

  ghost predicate PilotOk(s: State) {
    match s.pilot
    case Idle => s.inflight == NOBODY
    case Reading(l, eid, z, isNew) => Claim(s, l, eid, z, isNew, false)
    case Read(l, eid, z, isNew, ok) => Claim(s, l, eid, z, isNew, ok)
  }

  // The main thread owns layer l: it has announced it, and no read is in flight on it.
  ghost predicate Owns(s: State, l: nat) {
    l < |s.layers| && s.cur == l && s.inflight != l
  }

  // A resolved expert is where its use says.
  ghost predicate UseOk(s: State, l: nat, u: Use, eid: nat, j: nat, misses: seq<nat>)
    requires l < |s.layers| && s.layers[l].n <= |s.layers[l].lru|
  {
    match u
    case Pinned(z) => z < |s.layers[l].pin| && s.layers[l].pin[z].eid == eid
    case Cached(z) => z < s.layers[l].n && s.layers[l].lru[z].eid == eid
    case Missed(q) => q < |misses| && misses[q] == j
  }

  ghost predicate BlockOk(s: State, l: nat, todo: seq<nat>, block: seq<nat>, misses: seq<nat>, left: nat) {
    && Owns(s, l) && s.layers[l].n <= |s.layers[l].lru| && Distinct(block + todo) && |block| <= BLOCK
    && |misses| <= |block| && Distinct(misses) && (forall q :: 0 <= q < |misses| ==> misses[q] < |block|)
    && left <= |misses|
    && forall q :: 0 <= q < left ==> Absent(s.layers[l].lru, s.layers[l].n, block[misses[q]])
  }

  ghost predicate UsesOk(s: State, l: nat, block: seq<nat>, uses: seq<Use>, misses: seq<nat>)
    requires l < |s.layers| && s.layers[l].n <= |s.layers[l].lru|
  {
    |uses| <= |block| && forall j :: 0 <= j < |uses| ==> UseOk(s, l, uses[j], block[j], j, misses)
  }

  ghost predicate InWorkingSet(s: State, l: nat, block: seq<nat>, misses: seq<nat>, q: nat)
    requires q < |misses| && misses[q] < |block| && q < |s.ws|
  {
    s.ws[q].eid == block[misses[q]] && s.ws[q].w == Of(l, block[misses[q]])
  }

  ghost predicate MainOk(s: State)
    requires Shape(s)
  {
    match s.main
    case Outside => true
    case Waiting(l) => l < |s.layers|
    case Owning(l, todo) => Owns(s, l) && Distinct(todo)
    case Resolving(l, todo, block, uses, misses) =>
      BlockOk(s, l, todo, block, misses, |misses|) && UsesOk(s, l, block, uses, misses) && |misses| <= |uses|
      && forall q :: 0 <= q < |misses| ==> misses[q] < |uses|
    case Loading(l, todo, block, uses, misses, loaded) =>
      BlockOk(s, l, todo, block, misses, |misses|) && UsesOk(s, l, block, uses, misses) && |uses| == |block|
      && forall q :: 0 <= q < |misses| && q in loaded ==> InWorkingSet(s, l, block, misses, q)
    case Multiplying(l, todo, block, uses, misses, j) =>
      BlockOk(s, l, todo, block, misses, |misses|) && UsesOk(s, l, block, uses, misses) && |uses| == |block|
      && j <= |block| && forall q :: 0 <= q < |misses| ==> InWorkingSet(s, l, block, misses, q)
    case Promoting(l, todo, block, misses, a) =>
      a <= |misses| && BlockOk(s, l, todo, block, misses, |misses| - a)
      && forall q :: 0 <= q < |misses| - a ==> InWorkingSet(s, l, block, misses, q)
  }

  ghost predicate Inv(s: State) {
    && Shape(s) && s.inflight >= NOBODY && s.cur >= -1
    && (forall l :: 0 <= l < |s.layers| ==> LayerOk(s.layers[l], l, s.cap))
    && PilotOk(s) && MainOk(s)
  }

  // ---- what the invariant gives ----

  function SlotOf(s: State, l: nat, u: Use): Slot
    requires Shape(s) && l < |s.layers|
    requires match u case Pinned(z) => z < |s.layers[l].pin| case Cached(z) => z < s.cap case Missed(q) => q < BLOCK
  {
    match u
    case Pinned(z) => s.layers[l].pin[z]
    case Cached(z) => s.layers[l].lru[z]
    case Missed(q) => s.ws[q]
  }

  // Every slot used in a multiplication of layer l holds the weights of its expert of layer l.
  lemma MultipliesRightWeights(s: State)
    requires Inv(s) && s.main.Multiplying? && s.main.j < |s.main.block|
    ensures var u := s.main.uses;
            && |u| == |s.main.block| && s.main.l < |s.layers|
            && (match u[s.main.j]
                case Pinned(z) => z < |s.layers[s.main.l].pin|
                case Cached(z) => z < s.cap
                case Missed(q) => q < BLOCK)
            && SlotOf(s, s.main.l, u[s.main.j]).w == Of(s.main.l, s.main.block[s.main.j])
  {
    var l, j := s.main.l, s.main.j;
    assert UseOk(s, l, s.main.uses[j], s.main.block[j], j, s.main.misses);
    assert LayerOk(s.layers[l], l, s.cap);
    match s.main.uses[j] {
      case Pinned(z) => assert Holds(s.layers[l].pin[z], l);
      case Cached(z) => assert Holds(s.layers[l].lru[z], l);
      case Missed(q) => assert InWorkingSet(s, l, s.main.block, s.main.misses, q);
    }
  }

  // No read is in flight on the layer the main thread works on.
  lemma NothingInFlight(s: State)
    requires Inv(s) && !s.main.Outside? && !s.main.Waiting?
    ensures s.inflight != s.main.l && s.cur == s.main.l
    ensures (s.pilot.Reading? || s.pilot.Read?) ==> s.pilot.layer != s.main.l
  {
  }

  predicate ByPilot(x: Action) {
    x.PilotTake? || x.PilotRead? || x.PilotPublish?
  }

  // While the main thread works on a layer, no step of the pilot touches it or the working set.
  lemma PilotKeepsOut(s: State, x: Action)
    requires Inv(s) && ByPilot(x) && !s.main.Outside? && !s.main.Waiting?
    ensures Step(s, x).layers[s.main.l] == s.layers[s.main.l] && Step(s, x).ws == s.ws && Step(s, x).main == s.main
  {
  }

  // ---- every step keeps the invariant ----

  // Replacing one visible slot of a layer.
  lemma SlotReplaced(lc: Layer, l: nat, cap: nat, z: nat, x: Slot)
    requires LayerOk(lc, l, cap) && z < cap && Holds(x, l)
    requires x.eid >= 0 ==> forall y :: 0 <= y < lc.n && y != z ==> lc.lru[y].eid != x.eid
    ensures LayerOk(lc.(lru := lc.lru[z := x]), l, cap)
  {
    var lru := lc.lru[z := x];
    forall y | 0 <= y < lc.n
      ensures Holds(lru[y], l)
    {
      assert y != z ==> Holds(lc.lru[y], l);
    }
  }

  // Publishing one slot more.
  lemma SlotAdded(lc: Layer, l: nat, cap: nat, x: Slot)
    requires LayerOk(lc, l, cap) && lc.n < cap && Holds(x, l)
    requires x.eid >= 0 ==> forall y :: 0 <= y < lc.n ==> lc.lru[y].eid != x.eid
    ensures LayerOk(lc.(lru := lc.lru[lc.n := x], n := lc.n + 1), l, cap)
  {
    var lru := lc.lru[lc.n := x];
    forall y | 0 <= y < lc.n + 1
      ensures Holds(lru[y], l)
    {
      assert y < lc.n ==> Holds(lc.lru[y], l);
    }
  }

  ghost predicate LayersOk(s: State) {
    forall l :: 0 <= l < |s.layers| ==> LayerOk(s.layers[l], l, s.cap)
  }

  lemma LayerChanged(s: State, t: State, l: nat)
    requires LayersOk(s) && l < |s.layers| == |t.layers| && t.cap == s.cap
    requires t.layers == s.layers[l := t.layers[l]] && LayerOk(t.layers[l], l, s.cap)
    ensures LayersOk(t)
  {
    hide LayerOk;
  }

  // What the main thread knows is about its own layer and the working set.
  lemma MainKept(s: State, t: State)
    requires Inv(s) && Shape(t) && t.main == s.main && t.cur == s.cur && t.ws == s.ws && |t.layers| == |s.layers|
    requires !s.main.Outside? && !s.main.Waiting? ==> t.layers[s.main.l] == s.layers[s.main.l] && t.inflight != s.main.l
    ensures MainOk(t)
  {
    hide LayerOk, PilotOk, Distinct;
    if !s.main.Outside? && !s.main.Waiting? && !s.main.Owning? {
      assert forall u, eid, j, misses :: UseOk(s, s.main.l, u, eid, j, misses) ==> UseOk(t, s.main.l, u, eid, j, misses);
      assert forall block, misses, q: nat :: q < |misses| && misses[q] < |block| && q < |s.ws| ==>
               (InWorkingSet(s, s.main.l, block, misses, q) ==> InWorkingSet(t, s.main.l, block, misses, q));
    }
  }

  lemma TakeKeeps(s: State, l: nat, eid: nat)
    requires Inv(s)
    ensures Inv(Take(s, l, eid))
  {
    var t := Take(s, l, eid);
    if t != s {
      var lc, z := s.layers[l], Victim(s.layers[l]);
      SlotReplaced(lc, l, s.cap, z, lc.lru[z].(eid := -1, w := Junk));
      LayerChanged(s, t, l);
      MainKept(s, t);
    }
  }

  lemma EndReadKeeps(s: State, ok: bool)
    requires Inv(s)
    ensures Inv(EndRead(s, ok))
  {
    if s.pilot.Reading? {
      var t := EndRead(s, ok);
      var l, eid, z := s.pilot.layer, s.pilot.eid, s.pilot.slot;
      if ok {
        SlotReplaced(s.layers[l], l, s.cap, z, s.layers[l].lru[z].(eid := eid, w := Of(l, eid)));
        LayerChanged(s, t, l);
      }
      MainKept(s, t);
    }
  }

  lemma PublishKeeps(s: State)
    requires Inv(s)
    ensures Inv(Publish(s))
  {
    if s.pilot.Read? {
      var t := Publish(s);
      var l, z := s.pilot.layer, s.pilot.slot;
      var lc := s.layers[l];
      if s.pilot.ok {
        var x := lc.lru[z].(used := s.clock + 1);
        if s.pilot.isNew {
          SlotAdded(lc, l, s.cap, x);
        } else {
          SlotReplaced(lc, l, s.cap, z, x);
        }
        LayerChanged(s, t, l);
      }
      MainKept(s, t);
    }
  }

  // The pilot's claim is on a layer the main thread does not own.
  lemma PilotKept(s: State, t: State)
    requires Inv(s) && t.cap == s.cap && t.pilot == s.pilot && t.inflight == s.inflight && |t.layers| == |s.layers|
    requires !s.pilot.Idle? ==> s.pilot.layer < |s.layers| && t.layers[s.pilot.layer] == s.layers[s.pilot.layer]
    ensures PilotOk(t)
  {
    hide LayerOk, MainOk;
  }

  lemma ResolveKeeps(s: State)
    requires Inv(s)
    ensures Inv(Resolve(s))
  {
    match s.main {
      case Resolving(l, todo, block, uses, misses) =>
        if |uses| < |block| {
          ResolveOne(s);
        } else {
          PilotKept(s, Resolve(s));
        }
      case _ =>
    }
  }

  lemma ResolveOne(s: State)
    requires Inv(s) && s.main.Resolving? && |s.main.uses| < |s.main.block|
    ensures Inv(Resolve(s))
  {
    var t := Resolve(s);
    var l, lc := s.main.l, s.layers[s.main.l];
    var eid := s.main.block[|s.main.uses|];
    var p, z := Find(lc.pin, |lc.pin|, eid), Find(lc.lru, lc.n, eid);
    if p >= |lc.pin| && z < lc.n {
      var x := lc.lru[z].(used := s.clock + 1);
      assert Holds(lc.lru[z], l);
      SlotReplaced(lc, l, s.cap, z, x);
      LayerChanged(s, t, l);
    }
    PilotKept(s, t);
    SameIds(lc, t.layers[l]);
    ResolvedUses(s, t);
  }

  // Touching a slot's clock changes no id.
  lemma SameIds(lc: Layer, after: Layer)
    requires lc.n <= |lc.lru| == |after.lru| && after.n == lc.n && after.pin == lc.pin
    requires forall z :: 0 <= z < lc.n ==> after.lru[z].eid == lc.lru[z].eid
    ensures forall eid :: Absent(lc.lru, lc.n, eid) ==> Absent(after.lru, after.n, eid)
  {
  }

  lemma OneMoreMiss(misses: seq<nat>, n: nat)
    requires Distinct(misses) && forall q :: 0 <= q < |misses| ==> misses[q] < n
    ensures Distinct(misses + [n]) && forall q :: 0 <= q < |misses + [n]| ==> (misses + [n])[q] < n + 1
  {
  }

  lemma ResolvedUses(s: State, t: State)
    requires Inv(s) && s.main.Resolving? && |s.main.uses| < |s.main.block| && t == Resolve(s) && Shape(t)
    ensures MainOk(t)
  {
    hide LayerOk, PilotOk, Distinct, Find;
    OneMoreMiss(s.main.misses, |s.main.uses|);
    var l, block, uses, misses := s.main.l, s.main.block, s.main.uses, s.main.misses;
    var lc, after := s.layers[l], t.layers[l];
    assert forall z :: 0 <= z < lc.n ==> after.lru[z].eid == lc.lru[z].eid;
    SameIds(lc, after);
    var more := t.main.misses;
    assert misses <= more;
    forall j | 0 <= j < |uses|
      ensures UseOk(t, l, uses[j], block[j], j, more)
    {
      assert UseOk(s, l, uses[j], block[j], j, misses);
    }
    forall q | 0 <= q < |more|
      ensures Absent(after.lru, after.n, block[more[q]])
    {
      if q < |misses| {
        assert Absent(lc.lru, lc.n, block[misses[q]]);
      }
    }
  }

  lemma LoadKeeps(s: State, q: nat)
    requires Inv(s)
    ensures Inv(Load(s, q))
  {
    hide LayerOk;
    var t := Load(s, q);
    PilotKept(s, t);
    if s.main.Loading? {
      var l, block, uses, misses := s.main.l, s.main.block, s.main.uses, s.main.misses;
      forall j | 0 <= j < |uses|
        ensures UseOk(t, l, uses[j], block[j], j, misses)
      {
        assert UseOk(s, l, uses[j], block[j], j, misses);
      }
      forall p | 0 <= p < |misses| && p in s.main.loaded
        ensures InWorkingSet(t, l, block, misses, p)
      {
        assert InWorkingSet(s, l, block, misses, p);
      }
    }
  }

  lemma MultiplyKeeps(s: State)
    requires Inv(s)
    ensures Inv(Multiply(s))
  {
    hide LayerOk;
    var t := Multiply(s);
    PilotKept(s, t);
    if s.main.Multiplying? {
      var l, block, uses, misses := s.main.l, s.main.block, s.main.uses, s.main.misses;
      forall j | 0 <= j < |uses|
        ensures UseOk(t, l, uses[j], block[j], j, misses)
      {
        assert UseOk(s, l, uses[j], block[j], j, misses);
      }
      forall p | 0 <= p < |misses|
        ensures InWorkingSet(t, l, block, misses, p)
      {
        assert InWorkingSet(s, l, block, misses, p);
      }
    }
  }

  lemma PromoteKeeps(s: State)
    requires Inv(s)
    ensures Inv(Promote(s))
  {
    if s.main.Promoting? {
      if s.main.a < |s.main.misses| && s.main.a < s.cap {
        PromoteOne(s);
      } else {
        hide LayerOk;
        PilotKept(s, Promote(s));
        TailDistinct(s.main.block, s.main.todo);
      }
    }
  }

  lemma TailDistinct(block: seq<nat>, todo: seq<nat>)
    requires Distinct(block + todo)
    ensures Distinct(todo)
  {
    forall i, j | 0 <= i < j < |todo|
      ensures todo[i] != todo[j]
    {
      assert (block + todo)[|block| + i] == todo[i] && (block + todo)[|block| + j] == todo[j];
    }
  }

  lemma PromoteOne(s: State)
    requires Inv(s) && s.main.Promoting? && s.main.a < |s.main.misses| && s.main.a < s.cap
    ensures Inv(Promote(s))
  {
    var t := Promote(s);
    var l, lc, misses, block, a := s.main.l, s.layers[s.main.l], s.main.misses, s.main.block, s.main.a;
    var q, z := |misses| - 1 - a, Victim(lc);
    assert InWorkingSet(s, l, block, misses, q);
    assert Absent(lc.lru, lc.n, block[misses[q]]);
    var x := s.ws[q].(used := s.clock + 1);
    if lc.n < s.cap {
      SlotAdded(lc, l, s.cap, x);
    } else {
      SlotReplaced(lc, l, s.cap, z, x);
    }
    LayerChanged(s, t, l);
    PilotKept(s, t);
    PromotedMain(s, t);
  }

  lemma PromotedMain(s: State, t: State)
    requires Inv(s) && s.main.Promoting? && s.main.a < |s.main.misses| && s.main.a < s.cap
    requires t == Promote(s) && Shape(t)
    ensures MainOk(t)
  {
    hide LayerOk, PilotOk;
    var l, lc, misses, block, a := s.main.l, s.layers[s.main.l], s.main.misses, s.main.block, s.main.a;
    var q, z := |misses| - 1 - a, Victim(lc);
    var after := t.layers[l];
    assert InWorkingSet(s, l, block, misses, q);
    forall p | 0 <= p < |misses| - (a + 1)
      ensures Absent(after.lru, after.n, block[misses[p]]) && InWorkingSet(t, l, block, misses, p)
    {
      assert Absent(lc.lru, lc.n, block[misses[p]]) && InWorkingSet(s, l, block, misses, p);
      OtherMember(block, s.main.todo, misses[p], misses[q]);
    }
  }

  lemma OtherMember(block: seq<nat>, todo: seq<nat>, i: nat, j: nat)
    requires Distinct(block + todo) && i < |block| && j < |block| && i != j
    ensures block[i] != block[j]
  {
    assert (block + todo)[i] == block[i] && (block + todo)[j] == block[j];
  }

  lemma BlockKeeps(s: State)
    requires Inv(s)
    ensures Inv(Step(s, MainBlock))
  {
    hide LayerOk;
    var t := Step(s, MainBlock);
    PilotKept(s, t);
    if s.main.Owning? && s.main.todo != [] {
      var todo := s.main.todo;
      var nb := if |todo| < BLOCK then |todo| else BLOCK;
      assert todo[..nb] + todo[nb..] == todo;
    }
  }

  lemma StepKeeps(s: State, x: Action)
    requires Inv(s)
    ensures Inv(Step(s, x))
  {
    hide LayerOk, Resolve, Load, Promote, Take, EndRead, Publish, Multiply;
    match x {
      case PilotTake(l, eid) => TakeKeeps(s, l, eid);
      case PilotRead(ok) => EndReadKeeps(s, ok);
      case PilotPublish => PublishKeeps(s);
      case MainBlock => BlockKeeps(s);
      case MainResolve => ResolveKeeps(s);
      case MainLoad(q) => LoadKeeps(s, q);
      case MainMultiply => MultiplyKeeps(s);
      case MainPromote => PromoteKeeps(s);
      case _ => PilotKept(s, Step(s, x));
    }
  }

  // The state before the first forward: nothing published, nobody working, pins loaded.
  ghost predicate Start(s: State) {
    && Shape(s) && s.inflight == NOBODY && s.cur == -1 && s.pilot == Idle && s.main == Outside
    && forall l :: 0 <= l < |s.layers| ==> s.layers[l].n == 0 && AllHold(s.layers[l].pin, |s.layers[l].pin|, l)
  }

  // Safety over whole runs: every interleaving keeps the invariant.
  lemma {:induction false} RunKeeps(s: State, xs: seq<Action>)
    requires Inv(s)
    ensures Inv(Run(s, xs))
    decreases |xs|
  {
    hide Inv, Step;
    if xs != [] {
      ShapeOf(s);
      StepKeeps(s, xs[0]);
      ShapeOf(Step(s, xs[0]));
      RunKeeps(Step(s, xs[0]), xs[1..]);
    }
  }

  lemma ShapeOf(s: State)
    requires Inv(s)
    ensures Shape(s)
  {
  }

  // In particular, from the start: whatever the pilot did meanwhile, the multiplication reads the
  // right weights.
  lemma RunMultipliesRightWeights(s: State, xs: seq<Action>)
    requires Start(s) && Run(s, xs).main.Multiplying? && Run(s, xs).main.j < |Run(s, xs).main.block|
    ensures var t := Run(s, xs);
            && Inv(t) && |t.main.uses| == |t.main.block| && t.main.l < |t.layers|
            && (match t.main.uses[t.main.j]
                case Pinned(z) => z < |t.layers[t.main.l].pin|
                case Cached(z) => z < t.cap
                case Missed(q) => q < BLOCK)
            && SlotOf(t, t.main.l, t.main.uses[t.main.j]).w == Of(t.main.l, t.main.block[t.main.j])
  {
    hide Run;
    RunKeeps(s, xs);
    MultipliesRightWeights(Run(s, xs));
  }

  // Once the main thread has announced the layer it waits for, the pilot takes nothing more there,
  // and the wait ends when the read in flight, if any, is published.
  lemma WaitEnds(s: State, l: nat, next: Action, ok: bool)
    requires Inv(s) && s.main == Waiting(l)
    ensures var t := Step(s, MainAcquire);
            && t.cur == l
            && (t.main == Waiting(l) ==> s.inflight == l)
            && (next.PilotTake? && next.layer == l ==> Step(t, next) == t)
            && Inv(t) && Shape(Step(t, PilotRead(ok)))
            && Shape(Step(Step(t, PilotRead(ok)), PilotPublish))
            && Step(Step(Step(t, PilotRead(ok)), PilotPublish), MainAcquire).main == Owning(l, [])
  {
    var t := Step(s, MainAcquire);
    StepKeeps(s, MainAcquire);
    StepKeeps(t, PilotRead(ok));
    StepKeeps(Step(t, PilotRead(ok)), PilotPublish);
  }
}
