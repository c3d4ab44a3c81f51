/** The admission queue of c/openai_server.py: GenerationScheduler, one critical section of its
    condition at a time. Any order of sections by any number of requests is a run. */
module Admission {

  type Ticket = nat

  // How a pass through the lock ends for a request.
  datatype Outcome = Refused | Full | Admitted | Cancelled | TimedOut | ClosedOut | Waiting

  // The scheduler's fields, and its history: tickets queued, in order; those that left the queue
  // unadmitted; those admitted, in order; and those whose generation is running.
  datatype State = State(maxQueue: nat, queue: seq<Ticket>, active: bool, closed: bool,
                         admitted: nat, completed: nat, rejected: nat, timedOut: nat, cancelled: nat,
                         enqueued: seq<Ticket>, left: set<Ticket>, admissions: seq<Ticket>, running: set<Ticket>)

  function Idle(maxQueue: nat): State {
    State(maxQueue, [], false, false, 0, 0, 0, 0, 0, [], {}, [], {})
  }

  // The queue without t.
  function Without(q: seq<Ticket>, t: Ticket): (r: seq<Ticket>)
    ensures |r| <= |q| && (t in q ==> |r| == |q| - 1)
  {
    if q == [] then [] else if q[0] == t then q[1..] else [q[0]] + Without(q[1..], t)
  }

  function Dropped(s: State, t: Ticket): State {
    s.(queue := Without(s.queue, t), left := s.left + {t})
  }

  // One turn of the waiting loop.
  function Check(s: State, t: Ticket, cancel: bool, late: bool): (State, Outcome) {
    if s.closed then (Dropped(s, t), ClosedOut)
    else if !s.active && s.queue != [] && s.queue[0] == t then
      (s.(queue := s.queue[1..], active := true, admitted := s.admitted + 1,
          admissions := s.admissions + [t], running := s.running + {t}), Admitted)
    else if cancel then (Dropped(s, t).(cancelled := s.cancelled + 1), Cancelled)
    else if late then (Dropped(s, t).(timedOut := s.timedOut + 1), TimedOut)
    else (s, Waiting)
  }

  // A request's first section: refused, rejected, or queued and looked at once.
  function Arrive(s: State, t: Ticket, cancel: bool, late: bool): (State, Outcome) {
    if s.closed then (s, Refused)
    else if (s.active || s.queue != []) && |s.queue| >= s.maxQueue then (s.(rejected := s.rejected + 1), Full)
    else Check(s.(queue := s.queue + [t], enqueued := s.enqueued + [t]), t, cancel, late)
  }

  // The section that ends a generation.
  function Finish(s: State, t: Ticket): State {
    s.(active := false, completed := s.completed + 1, running := s.running - {t})
  }

  datatype Section =
    | Arrives(t: Ticket, cancel: bool, late: bool)
    | Wakes(t: Ticket, cancel: bool, late: bool)
    | Finishes(t: Ticket)
    | Closes

  // What a request may do next: arrive once, wake while queued, finish while running.
  ghost predicate Enabled(s: State, x: Section) {
    match x
    case Arrives(t, _, _) => t !in s.enqueued
    case Wakes(t, _, _) => t in s.queue
    case Finishes(t) => t in s.running
    case Closes => true
  }

  function Step(s: State, x: Section): State {
    match x
    case Arrives(t, cancel, late) => Arrive(s, t, cancel, late).0
    case Wakes(t, cancel, late) => Check(s, t, cancel, late).0
    case Finishes(t) => Finish(s, t)
    case Closes => s.(closed := true)
  }

  // ---- the protocol's promises ----

  // The tickets of ts not in gone, in order.
  function Remaining(ts: seq<Ticket>, gone: set<Ticket>): seq<Ticket> {
    if ts == [] then [] else (if ts[0] in gone then [] else [ts[0]]) + Remaining(ts[1..], gone)
  }

  predicate NoneTwice(ts: seq<Ticket>) {
    forall i, j :: 0 <= i < j < |ts| ==> ts[i] != ts[j]
  }

  ghost predicate Inv(s: State) {
    // at most one generation runs, and only while active
    && (if s.active then exists t :: s.running == {t} else s.running == {})
    // first in, first out: leaving out those that gave up, tickets are admitted in order of arrival
    && NoneTwice(s.enqueued) && Remaining(s.enqueued, s.left) == s.admissions + s.queue
    // nobody who left is queued, admitted or unknown
    && (forall t :: t in s.left ==> t in s.enqueued)
    // the queue is bounded, and every admission is accounted for
    && |s.queue| <= s.maxQueue
    && s.admitted == |s.admissions| == s.completed + (if s.active then 1 else 0)
  }

  lemma {:induction false} RemainingMember(ts: seq<Ticket>, gone: set<Ticket>, t: Ticket)
    ensures t in Remaining(ts, gone) <==> t in ts && t !in gone
  {
    if ts != [] {
      RemainingMember(ts[1..], gone, t);
      assert ts == [ts[0]] + ts[1..];
    }
  }

  lemma {:induction false} RemainingSnoc(ts: seq<Ticket>, gone: set<Ticket>, t: Ticket)
    requires t !in gone
    ensures Remaining(ts + [t], gone) == Remaining(ts, gone) + [t]
  {
    if ts == [] {
      assert ([] + [t])[1..] == [];
    } else {
      RemainingSnoc(ts[1..], gone, t);
      assert (ts + [t])[1..] == ts[1..] + [t];
    }
  }

  lemma {:induction false} WithoutAbsent(q: seq<Ticket>, t: Ticket)
    requires t !in q
    ensures Without(q, t) == q
  {
    if q != [] {
      WithoutAbsent(q[1..], t);
      assert q == [q[0]] + q[1..];
    }
  }

  lemma {:induction false} WithoutAppend(a: seq<Ticket>, q: seq<Ticket>, t: Ticket)
    requires t !in a
    ensures Without(a + q, t) == a + Without(q, t)
  {
    if a == [] {
      assert a + q == q && a + Without(q, t) == Without(q, t);
    } else {
      assert (a + q)[1..] == a[1..] + q && (a + q)[0] == a[0];
      WithoutAppend(a[1..], q, t);
      assert a + Without(q, t) == [a[0]] + (a[1..] + Without(q, t));
    }
  }

  lemma WithoutHead(q: seq<Ticket>)
    requires q != []
    ensures Without(q, q[0]) == q[1..]
  {
  }

  // One more ticket giving up leaves the others in order.
  lemma {:induction false} RemainingLess(ts: seq<Ticket>, gone: set<Ticket>, t: Ticket)
    requires NoneTwice(ts) && t !in gone
    ensures Remaining(ts, gone + {t}) == Without(Remaining(ts, gone), t)
  {
    if ts != [] {
      var rest := ts[1..];
      RemainingLess(rest, gone, t);
      var r := Remaining(rest, gone);
      assert ([ts[0]] + r)[1..] == r;
      if ts[0] == t {
        RemainingMember(rest, gone, t);
        forall i | 0 <= i < |rest|
          ensures rest[i] != t
        {
          assert rest[i] == ts[i + 1];
        }
        WithoutAbsent(r, t);
        assert Remaining(ts, gone) == [t] + r;
        assert Remaining(ts, gone + {t}) == [] + r == r;
      } else if ts[0] in gone {
        assert Remaining(ts, gone) == [] + r == r;
        assert Remaining(ts, gone + {t}) == [] + Remaining(rest, gone + {t}) == Remaining(rest, gone + {t});
      } else {
        assert Remaining(ts, gone) == [ts[0]] + r;
      }
    }
  }

  lemma {:induction false} NoneTwiceRemaining(ts: seq<Ticket>, gone: set<Ticket>)
    requires NoneTwice(ts)
    ensures NoneTwice(Remaining(ts, gone))
  {
    if ts != [] {
      var rest := ts[1..];
      NoneTwiceRemaining(rest, gone);
      RemainingMember(rest, gone, ts[0]);
      forall i | 0 <= i < |rest|
        ensures rest[i] != ts[0]
      {
        assert rest[i] == ts[i + 1];
      }
    }
  }

  // A queued ticket has neither left nor been admitted.
  lemma QueuedIsFresh(s: State, t: Ticket)
    requires NoneTwice(s.enqueued) && Remaining(s.enqueued, s.left) == s.admissions + s.queue && t in s.queue
    ensures t !in s.left && t !in s.admissions && t in s.enqueued
  {
    RemainingMember(s.enqueued, s.left, t);
    NoneTwiceRemaining(s.enqueued, s.left);
    var i :| 0 <= i < |s.queue| && s.queue[i] == t;
    var all := s.admissions + s.queue;
    assert all[|s.admissions| + i] == t;
    assert t in all;
    forall j | 0 <= j < |s.admissions|
      ensures s.admissions[j] != t
    {
      assert all[j] == s.admissions[j];
    }
  }

  lemma DroppedKeeps(s: State, t: Ticket)
    requires NoneTwice(s.enqueued) && Remaining(s.enqueued, s.left) == s.admissions + s.queue && t in s.queue
    ensures var d := Dropped(s, t); Remaining(d.enqueued, d.left) == d.admissions + d.queue
  {
    QueuedIsFresh(s, t);
    RemainingLess(s.enqueued, s.left, t);
    WithoutAppend(s.admissions, s.queue, t);
  }

  // The invariant except for the bound, which a ticket that is admitted at once may pass inside
  // its section.
  ghost predicate Inside(s: State, slack: nat) {
    && (if s.active then exists t :: s.running == {t} else s.running == {})
    && NoneTwice(s.enqueued) && Remaining(s.enqueued, s.left) == s.admissions + s.queue
    && (forall t :: t in s.left ==> t in s.enqueued)
    && |s.queue| <= s.maxQueue + slack
    && s.admitted == |s.admissions| == s.completed + (if s.active then 1 else 0)
  }

  lemma CheckKeeps(s: State, t: Ticket, cancel: bool, late: bool, slack: nat)
    requires Inside(s, slack) && t in s.queue
    requires slack > 0 ==> slack == 1 && !s.closed && !s.active && s.queue == [t]
    ensures Inv(Check(s, t, cancel, late).0)
  {
    DroppedKeeps(s, t);
    QueuedIsFresh(s, t);
    var r := Check(s, t, cancel, late);
    if r.1.Admitted? {
      assert s.queue == [t] + s.queue[1..];
      assert s.admissions + s.queue == (s.admissions + [t]) + s.queue[1..];
      assert r.0.running == {t};
    }
  }

  lemma StepKeeps(s: State, x: Section)
    requires Inv(s) && Enabled(s, x)
    ensures Inv(Step(s, x))
  {
    hide Check, Remaining;
    match x {
      case Arrives(t, cancel, late) =>
        if !s.closed && !((s.active || s.queue != []) && |s.queue| >= s.maxQueue) {
          var q := s.(queue := s.queue + [t], enqueued := s.enqueued + [t]);
          RemainingSnoc(s.enqueued, s.left, t);
          assert s.admissions + (s.queue + [t]) == (s.admissions + s.queue) + [t];
          CheckKeeps(q, t, cancel, late, if s.active || s.queue != [] then 0 else 1);
        }
      case Wakes(t, cancel, late) => CheckKeeps(s, t, cancel, late, 0);
      case Finishes(t) =>
      case Closes =>
    }
  }

  // A run: every section enabled where it happens.
  ghost predicate IsRun(s: State, xs: seq<Section>)
    decreases |xs|
  {
    xs == [] || (Enabled(s, xs[0]) && IsRun(Step(s, xs[0]), xs[1..]))
  }

  function After(s: State, xs: seq<Section>): State
    decreases |xs|
  {
    if xs == [] then s else After(Step(s, xs[0]), xs[1..])
  }

  lemma {:induction false} RunKeeps(s: State, xs: seq<Section>)
    requires Inv(s) && IsRun(s, xs)
    ensures Inv(After(s, xs))
    decreases |xs|
  {
    hide Inv, Enabled, Step;
    if xs != [] {
      StepKeeps(s, xs[0]);
      RunKeeps(Step(s, xs[0]), xs[1..]);
    }
  }

  // Safety over every interleaving from an idle scheduler.
  lemma EveryRunIsSafe(maxQueue: nat, xs: seq<Section>)
    requires IsRun(Idle(maxQueue), xs)
    ensures Inv(After(Idle(maxQueue), xs))
  {
    RunKeeps(Idle(maxQueue), xs);
  }

  // Among two tickets that did not give up, the one queued first is admitted first: while the later
  // one has been admitted, the earlier one has been too.
  lemma EarlierFirst(s: State, i: nat, j: nat)
    requires Inv(s) && i < j < |s.enqueued| && s.enqueued[i] !in s.left && s.enqueued[j] in s.admissions
    ensures s.enqueued[i] in s.admissions
  {
    var x := RemainingOrder(s.enqueued, s.left, i, j, s.admissions, s.queue);
  }

  lemma {:induction false} RemainingOrder(ts: seq<Ticket>, gone: set<Ticket>, i: nat, j: nat, a: seq<Ticket>, q: seq<Ticket>) returns (x: nat)
    requires NoneTwice(ts) && i < j < |ts| && ts[i] !in gone && ts[j] in a && Remaining(ts, gone) == a + q
    ensures x < |a| && a[x] == ts[i]
    decreases |ts|
  {
    var rest := ts[1..];
    if i == 0 {
      assert (a + q)[0] == ts[0] && a != [];
      x := 0;
    } else if ts[0] in gone {
      x := RemainingOrder(rest, gone, i - 1, j - 1, a, q);
    } else {
      assert (a + q)[0] == ts[0] && a != [] && (a + q)[1..] == a[1..] + q;
      x := RemainingOrder(rest, gone, i - 1, j - 1, a[1..], q);
      x := x + 1;
    }
  }

  // ---- nobody is turned away or given up without a reason ----

  // What the section answers its request.
  function OutcomeOf(s: State, x: Section): Outcome {
    match x
    case Arrives(t, cancel, late) => Arrive(s, t, cancel, late).1
    case Wakes(t, cancel, late) => Check(s, t, cancel, late).1
    case Finishes(_) => Waiting
    case Closes => Waiting
  }

  // A ticket leaves the queue unadmitted only in its own section, and only when the scheduler is
  // closed, or its client has gone or its time is up while it cannot be admitted.
  lemma LeavesForAReason(s: State, x: Section, t: Ticket)
    requires Inv(s) && Enabled(s, x) && t !in s.left && t in Step(s, x).left
    ensures (x.Arrives? || x.Wakes?) && x.t == t && t !in Step(s, x).queue
    ensures s.closed || x.cancel || x.late
    ensures s.closed || s.active || (s.queue != [] && s.queue[0] != t)
  {
    hide Without, Remaining, Inv;
    StepKeeps(s, x);
    LeftIsNotQueued(Step(s, x), t);
  }

  lemma LeftIsNotQueued(s: State, t: Ticket)
    requires Inv(s) && t in s.left
    ensures t !in s.queue
  {
    if t in s.queue {
      QueuedIsFresh(s, t);
    }
  }

  // A ticket that wakes goes on waiting exactly while it may neither run nor has a reason to give up.
  lemma WaitsExactly(s: State, t: Ticket, cancel: bool, late: bool)
    requires Inv(s) && t in s.queue
    ensures var r, u, mayRun := OutcomeOf(s, Wakes(t, cancel, late)), Step(s, Wakes(t, cancel, late)),
                                !s.active && s.queue[0] == t;
            && (r == ClosedOut <==> s.closed) && (r == Admitted <==> !s.closed && mayRun)
            && (r == Cancelled <==> !s.closed && !mayRun && cancel)
            && (r == TimedOut <==> !s.closed && !mayRun && !cancel && late)
            && (r == Waiting <==> !s.closed && !mayRun && !cancel && !late)
            && (r == Waiting ==> u == s) && (r != Waiting ==> t !in u.queue)
  {
    hide Without, Remaining, Inv;
    StepKeeps(s, Wakes(t, cancel, late));
    var u := Step(s, Wakes(t, cancel, late));
    if OutcomeOf(s, Wakes(t, cancel, late)) == Admitted {
      HeadIsGone(s, t);
    } else if OutcomeOf(s, Wakes(t, cancel, late)) != Waiting {
      LeftIsNotQueued(u, t);
    }
  }

  lemma HeadIsGone(s: State, t: Ticket)
    requires Inv(s) && s.queue != [] && s.queue[0] == t
    ensures t !in s.queue[1..]
  {
    hide Remaining;
    NoneTwiceRemaining(s.enqueued, s.left);
    var all, m := s.admissions + s.queue, |s.admissions|;
    forall i | 1 <= i < |s.queue|
      ensures s.queue[i] != t
    {
      assert all[m] == t && all[m + i] == s.queue[i];
    }
  }

  // A request is refused only when the scheduler is closed, and turned away only when others are
  // ahead of it and the queue is full.
  lemma TurnedAwayWhenFull(s: State, t: Ticket, cancel: bool, late: bool)
    ensures var r := OutcomeOf(s, Arrives(t, cancel, late));
            && (r == Refused <==> s.closed)
            && (r == Full <==> !s.closed && (s.active || s.queue != []) && |s.queue| >= s.maxQueue)
            && (!s.closed && !s.active && s.queue == [] ==> r == Admitted)
  {
  }

  // The first in the queue is admitted when it wakes and nothing runs, even if late or given up.
  lemma FirstIsAdmitted(s: State, t: Ticket, cancel: bool, late: bool)
    requires Inv(s) && !s.closed && !s.active && s.queue != [] && s.queue[0] == t
    ensures var u := Step(s, Wakes(t, cancel, late));
            && OutcomeOf(s, Wakes(t, cancel, late)) == Admitted
            && u.active && u.running == {t} && u.admissions == s.admissions + [t] && u.queue == s.queue[1..]
  {
  }

  // While the scheduler is open and waiting requests neither leave nor time out, all of them can be
  // admitted and finished, in the order of the queue.
  lemma {:induction false} QueueDrains(s: State) returns (xs: seq<Section>)
    requires Inv(s) && !s.closed
    ensures IsRun(s, xs) && forall i :: 0 <= i < |xs| ==> xs[i].Finishes? || (xs[i].Wakes? && !xs[i].cancel && !xs[i].late)
    ensures var u := After(s, xs);
            && u.queue == [] && !u.active && u.admissions == s.admissions + s.queue && u.left == s.left
            && u.completed == u.admitted == s.admitted + |s.queue|
    decreases |s.queue|, if s.active then 1 else 0
  {
    hide Inv, Remaining, Check;
    if s.active {
      var t := RunningOne(s);
      StepKeeps(s, Finishes(t));
      var more := QueueDrains(Step(s, Finishes(t)));
      xs := [Finishes(t)] + more;
      assert xs[1..] == more;
    } else if s.queue != [] {
      var t := s.queue[0];
      FirstIsAdmitted(s, t, false, false);
      StepKeeps(s, Wakes(t, false, false));
      CheckCounts(s, t);
      var more := QueueDrains(Step(s, Wakes(t, false, false)));
      xs := [Wakes(t, false, false)] + more;
      assert xs[1..] == more;
      assert (s.admissions + [t]) + s.queue[1..] == s.admissions + s.queue;
    } else {
      xs := [];
      AllDone(s);
      assert s.admissions + [] == s.admissions;
    }
  }

  lemma RunningOne(s: State) returns (t: Ticket)
    requires Inv(s) && s.active
    ensures t in s.running
  {
    t :| s.running == {t};
  }

  lemma AllDone(s: State)
    requires Inv(s) && !s.active
    ensures s.completed == s.admitted
  {
  }

  lemma CheckCounts(s: State, t: Ticket)
    requires !s.closed && !s.active && s.queue != [] && s.queue[0] == t
    ensures var u := Step(s, Wakes(t, false, false));
            !u.closed && u.left == s.left && u.admitted == s.admitted + 1 && u.completed == s.completed
  {
  }

  // Every request queued so far is waiting, was admitted, or left; and until the scheduler closes,
  // those that left are those counted as cancelled or timed out.
  ghost predicate Accounted(s: State) {
    && |s.enqueued| == |s.admissions| + |s.queue| + |s.left|
    && (!s.closed ==> s.cancelled + s.timedOut == |s.left|)
  }

  lemma StepAccounts(s: State, x: Section)
    requires Inv(s) && Enabled(s, x) && Accounted(s)
    ensures Accounted(Step(s, x))
  {
    hide Check, Inv;
    match x {
      case Arrives(t, cancel, late) =>
        NewIsFresh(s, t);
        CheckAccounts(s.(queue := s.queue + [t], enqueued := s.enqueued + [t]), t, cancel, late);
      case Wakes(t, cancel, late) =>
        WaitingIsFresh(s, t);
        CheckAccounts(s, t, cancel, late);
      case _ =>
    }
  }

  lemma CheckAccounts(s: State, t: Ticket, cancel: bool, late: bool)
    requires Accounted(s) && t in s.queue && t !in s.left
    ensures Accounted(Check(s, t, cancel, late).0)
  {
    hide Without;
  }

  lemma NewIsFresh(s: State, t: Ticket)
    requires Inv(s) && t !in s.enqueued
    ensures t !in s.left && t in s.queue + [t]
  {
  }

  lemma WaitingIsFresh(s: State, t: Ticket)
    requires Inv(s) && t in s.queue
    ensures t !in s.left
  {
    QueuedIsFresh(s, t);
  }

  lemma {:induction false} RunAccounts(s: State, xs: seq<Section>)
    requires Inv(s) && Accounted(s) && IsRun(s, xs)
    ensures Accounted(After(s, xs))
    decreases |xs|
  {
    hide Inv, Enabled, Step, Accounted;
    if xs != [] {
      StepKeeps(s, xs[0]);
      StepAccounts(s, xs[0]);
      RunAccounts(Step(s, xs[0]), xs[1..]);
    }
  }

  // After every interleaving from an idle scheduler.
  lemma EveryoneAccounted(maxQueue: nat, xs: seq<Section>)
    requires IsRun(Idle(maxQueue), xs)
    ensures Accounted(After(Idle(maxQueue), xs))
  {
    RunAccounts(Idle(maxQueue), xs);
  }

  // ---- the object ----

  class GenerationScheduler {
    const maxQueue: nat
    var queue: seq<Ticket>
    var active: bool
    var closed: bool
    var admitted: nat
    var completed: nat
    var rejected: nat
    var timedOut: nat
    var cancelled: nat
    ghost var enqueued: seq<Ticket>
    ghost var left: set<Ticket>
    ghost var admissions: seq<Ticket>
    ghost var running: set<Ticket>

    ghost function Now(): State
      reads this
    {
      State(maxQueue, queue, active, closed, admitted, completed, rejected, timedOut, cancelled,
            enqueued, left, admissions, running)
    }

    constructor (maxQueue: nat)
      ensures Now() == Idle(maxQueue)
    {
      this.maxQueue := maxQueue;
      queue, active, closed := [], false, false;
      admitted, completed, rejected, timedOut, cancelled := 0, 0, 0, 0, 0;
      enqueued, left, admissions, running := [], {}, [], {};
    }

    // deque.remove.
    method Remove(t: Ticket)
      requires t in queue
      modifies this`queue
      ensures queue == Without(old(queue), t)
    {
      hide Without;
      var i := 0;
      while queue[i] != t
        invariant 0 <= i < |queue| && t in queue[i..] && t !in queue[..i] && queue == old(queue)
        decreases |queue| - i
      {
        assert queue[..i + 1] == queue[..i] + [queue[i]];
        i := i + 1;
      }
      WithoutAppend(queue[..i], queue[i..], t);
      WithoutHead(queue[i..]);
      assert queue == queue[..i] + queue[i..] && queue[i..][1..] == queue[i + 1..];
      queue := queue[..i] + queue[i + 1..];
    }

    // The body of the waiting loop, up to its wait or its end.
    method TryAdmit(t: Ticket, cancel: bool, late: bool) returns (r: Outcome)
      requires t in queue
      modifies this
      ensures (Now(), r) == Check(old(Now()), t, cancel, late)
    {
      if closed {
        Remove(t);
        left := left + {t};
        return ClosedOut;
      }
      if !active && queue[0] == t {
        queue := queue[1..];
        active := true;
        admitted := admitted + 1;
        admissions, running := admissions + [t], running + {t};
        return Admitted;
      }
      if cancel {
        Remove(t);
        cancelled, left := cancelled + 1, left + {t};
        return Cancelled;
      }
      if late {
        Remove(t);
        timedOut, left := timedOut + 1, left + {t};
        return TimedOut;
      }
      r := Waiting;
    }

    // admit, up to its first wait.
    method Admit(t: Ticket, cancel: bool, late: bool) returns (r: Outcome)
      modifies this
      ensures (Now(), r) == Arrive(old(Now()), t, cancel, late)
    {
      if closed {
        return Refused;
      }
      if (active || queue != []) && |queue| >= maxQueue {
        rejected := rejected + 1;
        return Full;
      }
      queue := queue + [t];
      enqueued := enqueued + [t];
      r := TryAdmit(t, cancel, late);
    }

    // The finally clause of admit.
    method Complete(ghost t: Ticket)
      modifies this
      ensures Now() == Finish(old(Now()), t)
    {
      active := false;
      completed := completed + 1;
      running := running - {t};
    }

    method Close()
      modifies this
      ensures Now() == old(Now()).(closed := true)
    {
      closed := true;
    }

    // Any sequence of sections keeps the protocol's promises.
    method Serve(sections: seq<Section>)
      requires Inv(Now()) && IsRun(Now(), sections)
      modifies this
      ensures Inv(Now()) && Now() == After(old(Now()), sections)
    {
      hide Inv, Enabled, Check;
      ghost var start := Now();
      RunKeeps(start, sections);
      assert sections[0..] == sections;
      for i := 0 to |sections|
        invariant IsRun(Now(), sections[i..]) && After(Now(), sections[i..]) == After(start, sections)
      {
        assert sections[i..][1..] == sections[i + 1..] && sections[i..][0] == sections[i];
        Queued(Now(), sections[i]);
        var r;
        match sections[i] {
          case Arrives(t, cancel, late) => r := Admit(t, cancel, late);
          case Wakes(t, cancel, late) => r := TryAdmit(t, cancel, late);
          case Finishes(t) => Complete(t);
          case Closes => Close();
        }
      }
      assert sections[|sections|..] == [];
    }
  }

  lemma Queued(s: State, x: Section)
    requires Enabled(s, x)
    ensures x.Wakes? ==> x.t in s.queue
  {
  }
}
