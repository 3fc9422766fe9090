/**
 What the calls of the task scheduler do for their callers (src/svc/svc_tasks.c): the deadline a
 task gets, where it goes, what ends it, and in which order and how soon tasks run.
 */
module TaskEffects {
  import opened Common
  import opened TaskMachine
  import opened TaskInvariants
  import opened TaskTiming

  // ----- One call

  /** The delay the task gets: as many ticks as were asked for, but for the longest ones. */
  function Granted(ticks: nat): nat {
    if ticks < 0x7FFF_FFFF then ticks else 0x7FFF_FFFE
  }

  lemma ScheduleIsDelay<T>(s: State<T>, t: T, call: Call, prio: nat, ticks: nat, clock: nat -> nat, delay: nat, due: nat)
    requires Inv(s) && Closed(s) && t in s.info && s.info[t].status != QUEUED && 0 < ticks
    requires delay == Granted(ticks) && due == clock(0) + delay
    ensures Step(s, DoSchedule(t, call, prio, ticks), clock) == Delay(s, t, call, prio, delay, clock)
    ensures t !in s.timers && Closed(Placed(s, t, call, prio, due))
  {
    StatusOf(s, t);
    NotListed(s, multiset{}, t);
    PlaceKeeps(s, t, call, prio, due, InsertPos(s.timers, s.info, Wrap(due)));
    InvIsClosed(Placed(s, t, call, prio, due), multiset{});
  }

  lemma PlacedRecords<T>(s: State<T>, t: T, call: Call, prio: nat, due: nat, placed: State<T>)
    requires t in s.info && Closed(s) && placed == Placed(s, t, call, prio, due)
    ensures placed.info == s.info[t := Info(QUEUED, call, prio % 0x100, due % 0x1_0000_0000, due, |s.history|)]
    ensures placed.history == s.history + [Accepted(t, call)] && |placed.timers| == |s.timers| + 1
    ensures InsertPos(s.timers, s.info, Wrap(due)) > 0 && t !in s.timers ==> placed.timers[0] != t
  {
  }

  lemma DelayRecords<T>(s: State<T>, t: T, call: Call, prio: nat, delay: nat, clock: nat -> nat, due: nat, r: State<T>)
    requires t in s.info && Closed(s) && t !in s.timers && due == clock(0) + delay && Closed(Placed(s, t, call, prio, due))
    requires r == Delay(s, t, call, prio, delay, clock)
    ensures r.info == s.info[t := Info(QUEUED, call, prio % 0x100, due % 0x1_0000_0000, due, |s.history|)]
    ensures r.history == s.history + [Accepted(t, call)]
    ensures r.timers == [t] + s.timers ==> r.armed == Some(due)
  {
    var placed := Placed(s, t, call, prio, due);
    PlacedRecords(s, t, call, prio, due, placed);
    if InsertPos(s.timers, s.info, Wrap(due)) > 0 {
      if s.armed == None {
        EventKeepsHistory(placed, clock, 1);
        EventKeepsSuffix(placed, clock, 1);
      }
      NotFirst(s.timers, placed.timers, r.timers, t);
    }
  }

  lemma NotFirst<T>(before: seq<T>, placed: seq<T>, after: seq<T>, t: T)
    requires |placed| == |before| + 1 && placed[0] != t && |after| <= |placed| && after == placed[|placed| - |after|..]
    ensures after != [t] + before
  {
  }

  /** A task that is scheduled with a delay: what is recorded of it, and where it goes before all
      that wait, the timer is set for it. */
  lemma ScheduledFor<T>(s: State<T>, t: T, call: Call, prio: nat, ticks: nat, clock: nat -> nat, due: nat, r: State<T>)
    requires Inv(s) && Closed(s) && t in s.info && s.info[t].status != QUEUED && 0 < ticks
    requires due == clock(0) + if ticks < 0x7FFF_FFFF then ticks else 0x7FFF_FFFE
    requires r == Step(s, DoSchedule(t, call, prio, ticks), clock)
    ensures r.info == s.info[t := Info(QUEUED, call, prio % 0x100, due % 0x1_0000_0000, due, |s.history|)]
    ensures r.history == s.history + [Accepted(t, call)]
    ensures r.timers == [t] + s.timers ==> r.armed == Some(due)
  {
    ScheduleIsDelay(s, t, call, prio, ticks, clock, Granted(ticks), due);
    DelayRecords(s, t, call, prio, Granted(ticks), clock, due, r);
  }

  lemma {:induction false} EventKeepsHistory<T>(s: State<T>, clock: nat -> nat, i: nat)
    requires |s.ready| > 0 && AllKnown(s.timers, s.info)
    ensures TaskEvent(s, clock, i).history == s.history && TaskEvent(s, clock, i).info == s.info
    decreases |s.timers|
  {
    if s.timers != [] && HeadDue(s, clock(i)) { EventKeepsHistory(ReleaseHead(s), clock, i + 1); }
  }

  /** A timer event takes tasks from the front of the timer list only. */
  lemma {:induction false} EventKeepsSuffix<T>(s: State<T>, clock: nat -> nat, i: nat)
    requires |s.ready| > 0 && AllKnown(s.timers, s.info)
    ensures var r := TaskEvent(s, clock, i).timers; |r| <= |s.timers| && r == s.timers[|s.timers| - |r|..]
    decreases |s.timers|
  {
    if s.timers != [] && HeadDue(s, clock(i)) { EventKeepsSuffix(ReleaseHead(s), clock, i + 1); }
  }

  /** Without a delay the task goes to the end of the ready queue of its priority at once. */
  lemma ScheduledAtOnce<T>(s: State<T>, t: T, call: Call, prio: nat, clock: nat -> nat)
    requires Inv(s) && Closed(s) && t in s.info && s.info[t].status != QUEUED
    ensures var r := Step(s, DoSchedule(t, call, prio, 0), clock);
            var n := |s.ready|; var q := if prio % 0x100 < n then prio % 0x100 else n - 1;
            && r.ready == s.ready[q := s.ready[q] + [t]] && r.timers == s.timers
            && t in r.info && r.info[t].call == call && r.info[t].prio == prio % 0x100 && r.info[t].status == QUEUED
            && r.history == s.history + [Accepted(t, call)] && r.info == s.info[t := r.info[t]]
  {
    StatusOf(s, t);
  }

  lemma QueuedIsBusy<T>(s: State<T>, t: T, call: Call, prio: nat, ticks: nat, clock: nat -> nat)
    requires Inv(s) && Closed(s) && t in s.info && s.info[t].status == QUEUED
    ensures Step(s, DoSchedule(t, call, prio, ticks), clock) == s
  {
  }

  /** `svc_tasks_service_task` runs the head of the queue, if there is one, and nothing else changes. */
  lemma RunsHead<T>(s: State<T>, q: nat, clock: nat -> nat)
    requires Inv(s) && Closed(s) && q < |s.ready|
    ensures var r := Step(s, DoRun(q), clock);
            if s.ready[q] == [] then r == s
            else
              var t := s.ready[q][0];
              && t in s.info && t in r.info && r.info == s.info[t := r.info[t]]
              && r.info[t] == s.info[t].(status := ACTIVE_BIT) && r.history == s.history + [Ran(t, s.info[t].call)]
              && r.ready == s.ready[q := s.ready[q][1..]] && r.timers == s.timers
  {
    if s.ready[q] != [] { assert AllKnown(s.ready[q], s.info); }
  }

  /** A task that ran is active until it completes; no other one is changed by that. */
  lemma CompletesActive<T>(s: State<T>, t: T, clock: nat -> nat)
    requires Inv(s) && Closed(s) && t in s.info
    ensures Step(s, DoComplete(t), clock)
            == if s.info[t].status == ACTIVE_BIT then s.(info := s.info[t := s.info[t].(status := COMPLETE)]) else s
  {
    StatusOf(s, t);
    assert s.info[t := s.info[t]] == s.info;
  }

  /** A cancellation ends a queued task, wherever it is, and leaves any other task alone. */
  lemma CancelEnds<T>(s: State<T>, t: T, clock: nat -> nat, r: State<T>)
    requires Inv(s) && Closed(s) && t in s.info && r == Step(s, DoCancel(t), clock)
    ensures s.info[t].status != QUEUED ==> r == s
    ensures s.info[t].status == QUEUED ==>
      && r.info == s.info[t := s.info[t].(status := COMPLETE)]
      && r.history == s.history + [Canceled(t, Call(s.info[t].call.callback, s.info[t].call.parm % 0x1_0000_0000))]
      && t !in r.timers && forall q :: 0 <= q < |r.ready| ==> t !in r.ready[q]
  {
    StatusOf(s, t);
    if s.info[t].status == QUEUED {
      if t in s.timers {
        WithoutKnown(s.timers, t, s.info);
        EventKeepsHistory(TimerTaken(s, t), clock, 0);
      } else {
        var q := QueuedInItsQueue(s, t);
        EventKeepsHistory(Withdraw(ReadyTaken(s, q, t), t), clock, 0);
      }
      CancelKeeps(s, t, clock);
      NotListed(r, multiset{}, t);
    } else {
      NotListed(s, multiset{}, t);
    }
  }

  // ----- The order in a ready queue

  /** What a step leaves of a ready queue: a service takes its head, a cancellation its task. */
  function Left<T(==)>(list: seq<T>, op: Op<T>, q: nat): seq<T> {
    match op
    case DoRun(p) => if p == q && list != [] then list[1..] else list
    case DoCancel(t) => Without(list, t)
    case _ => list
  }

  predicate Extends<T(==)>(list: seq<T>, more: seq<T>) {
    |list| <= |more| && more[..|list|] == list
  }

  lemma {:induction false} EventExtends<T>(s: State<T>, clock: nat -> nat, i: nat, q: nat)
    requires |s.ready| > 0 && AllKnown(s.timers, s.info) && q < |s.ready|
    ensures |TaskEvent(s, clock, i).ready| == |s.ready| && Extends(s.ready[q], TaskEvent(s, clock, i).ready[q])
    decreases |s.timers|
  {
    if s.timers != [] && HeadDue(s, clock(i)) {
      EventExtends(ReleaseHead(s), clock, i + 1, q);
    }
  }

  lemma ScheduleKeepsOrder<T>(s: State<T>, t: T, call: Call, prio: nat, ticks: nat, clock: nat -> nat, q: nat, r: State<T>)
    requires Inv(s) && Closed(s) && t in s.info && q < |s.ready| && r == Step(s, DoSchedule(t, call, prio, ticks), clock)
    ensures |r.ready| == |s.ready| && Extends(s.ready[q], r.ready[q])
  {
    StatusOf(s, t);
    if s.info[t].status != QUEUED && ticks > 0 {
      var due := clock(0) + Granted(ticks);
      ScheduleIsDelay(s, t, call, prio, ticks, clock, Granted(ticks), due);
      DelayKeepsOrder(s, t, call, prio, Granted(ticks), clock, due, q, r);
    }
  }

  lemma DelayKeepsOrder<T>(s: State<T>, t: T, call: Call, prio: nat, delay: nat, clock: nat -> nat, due: nat, q: nat, r: State<T>)
    requires t in s.info && Closed(s) && due == clock(0) + delay && Closed(Placed(s, t, call, prio, due)) && q < |s.ready|
    requires r == Delay(s, t, call, prio, delay, clock)
    ensures |r.ready| == |s.ready| && Extends(s.ready[q], r.ready[q])
  {
    var p, placed := InsertPos(s.timers, s.info, Wrap(due)), Placed(s, t, call, prio, due);
    assert placed.ready == s.ready;
    if p > 0 && s.armed == None {
      EventExtends(placed, clock, 1, q);
      assert r == TaskEvent(placed, clock, 1);
    } else {
      assert r.ready == placed.ready;
    }
  }

  /** Tasks enter a ready queue at its end only, and leave it at its head, or canceled. */
  lemma StepKeepsOrder<T>(s: State<T>, op: Op<T>, clock: nat -> nat, q: nat, r: State<T>)
    requires Inv(s) && Closed(s) && Enabled(s, op) && q < |s.ready| && r == Step(s, op, clock)
    ensures |r.ready| == |s.ready| && Extends(Left(s.ready[q], op, q), r.ready[q])
  {
    match op
    case DoSchedule(t, call, prio, ticks) => ScheduleKeepsOrder(s, t, call, prio, ticks, clock, q, r);
    case DoCancel(t) => CancelKeepsOrder(s, t, clock, q, r);
    case DoRun(p) => RunsHead(s, p, clock);
    case DoHandleEvent => EventExtends(s.(pending := false), clock, 0, q);
    case _ =>
  }

  lemma CancelTimerKeepsOrder<T>(s: State<T>, t: T, clock: nat -> nat, q: nat)
    requires Closed(s) && t in s.info && t in s.timers && q < |s.ready|
    ensures var r := CancelTimer(s, t, clock); |r.ready| == |s.ready| && Extends(s.ready[q], r.ready[q])
  {
    WithoutKnown(s.timers, t, s.info);
    EventExtends(TimerTaken(s, t), clock, 0, q);
  }

  lemma CancelReadyKeepsOrder<T>(s: State<T>, p: nat, t: T, clock: nat -> nat, q: nat)
    requires Closed(s) && t in s.info && p < |s.ready| && q < |s.ready| && (q != p ==> t !in s.ready[q])
    ensures var r := CancelReady(s, p, t, clock); |r.ready| == |s.ready| && Extends(Without(s.ready[q], t), r.ready[q])
  {
    EventExtends(Withdraw(ReadyTaken(s, p, t), t), clock, 0, q);
  }

  lemma CancelKeepsOrder<T>(s: State<T>, t: T, clock: nat -> nat, q: nat, r: State<T>)
    requires Inv(s) && Closed(s) && t in s.info && q < |s.ready| && r == Step(s, DoCancel(t), clock)
    ensures |r.ready| == |s.ready| && Extends(Without(s.ready[q], t), r.ready[q])
  {
    StatusOf(s, t);
    NotElsewhere(s, t, q);
    if s.info[t].status != QUEUED {
      NotListed(s, multiset{}, t);
    } else if t in s.timers {
      CancelTimerKeepsOrder(s, t, clock, q);
    } else {
      var p := QueuedInItsQueue(s, t);
      CancelReadyKeepsOrder(s, p, t, clock, q);
    }
  }

  /** A task is in its own ready queue only, and there only if it does not wait. */
  lemma NotElsewhere<T>(s: State<T>, t: T, q: nat)
    requires Inv(s) && t in s.info && q < |s.ready|
    ensures t in s.ready[q] ==> t !in s.timers && q == QueueOf(s.info[t].prio, |s.ready|) && s.info[t].status == QUEUED
    ensures multiset(s.ready[q])[t] <= 1
  {
    PoolUpdated(s.ready, q, s.ready[q]);
    assert TaskOk(s.info[t], (Tally(s) + multiset{})[t], LedgerOf(s.history, t));
    if t in s.ready[q] {
      var i :| 0 <= i < |s.ready[q]| && s.ready[q][i] == t;
      assert QueueOk(s.info, s.ready[q], q, |s.ready|);
      assert Pool(s.ready)[t] >= 1 && TaskOk(s.info[t], (Tally(s) + multiset{})[t], LedgerOf(s.history, t));
    }
  }

  // ----- What a step leaves alone

  /** The history goes on from what it was. */
  predicate GoesOn<T(==)>(s: State<T>, r: State<T>) {
    Extends(s.history, r.history)
  }

  lemma ExtendsOn<T>(a: seq<T>, b: seq<T>, c: seq<T>)
    requires Extends(a, b) && Extends(b, c)
    ensures Extends(a, c)
  {
    assert c[..|a|] == c[..|b|][..|a|];
  }

  /** No event after the first n is of the task t. */
  ghost predicate NoneOf<T>(history: seq<Event<T>>, n: nat, t: T) {
    forall i :: n <= i < |history| ==> history[i].task != t
  }

  /** A call of schedule is recorded for its task, or refused. */
  lemma ScheduleRecords<T>(s: State<T>, u: T, call: Call, prio: nat, ticks: nat, clock: nat -> nat, r: State<T>)
    requires Inv(s) && Closed(s) && u in s.info && r == Step(s, DoSchedule(u, call, prio, ticks), clock)
    ensures if s.info[u].status == QUEUED then r == s
            else u in r.info && r.info == s.info[u := r.info[u]] && r.history == s.history + [Accepted(u, call)]
  {
    StatusOf(s, u);
    if s.info[u].status != QUEUED && ticks > 0 {
      ScheduledFor(s, u, call, prio, ticks, clock, clock(0) + Granted(ticks), r);
    } else if s.info[u].status != QUEUED {
      ScheduledAtOnce(s, u, call, prio, clock);
    }
  }

  /** A queued task that a step does not run or cancel. */
  lemma StepSpares<T>(s: State<T>, op: Op<T>, clock: nat -> nat, t: T, r: State<T>)
    requires Inv(s) && Closed(s) && Enabled(s, op) && t in s.info && s.info[t].status == QUEUED && r == Step(s, op, clock)
    requires op != DoCancel(t) && (op.DoRun? && s.ready[op.queue] != [] ==> s.ready[op.queue][0] != t)
    ensures t in r.info && r.info[t] == s.info[t] && GoesOn(s, r) && NoneOf(r.history, |s.history|, t)
  {
    match op
    case DoSchedule(u, call, prio, ticks) => ScheduleRecords(s, u, call, prio, ticks, clock, r);
    case DoCancel(u) => CancelEnds(s, u, clock, r);
    case DoRun(q) => RunSpares(s, q, clock, t, r);
    case DoComplete(u) => CompletesActive(s, u, clock);
    case DoHandleEvent => EventKeepsHistory(s.(pending := false), clock, 0);
    case DoFire =>
  }

  lemma RunSpares<T>(s: State<T>, q: nat, clock: nat -> nat, t: T, r: State<T>)
    requires Inv(s) && Closed(s) && q < |s.ready| && t in s.info && r == Step(s, DoRun(q), clock)
    requires s.ready[q] != [] ==> s.ready[q][0] != t
    ensures t in r.info && r.info[t] == s.info[t] && GoesOn(s, r) && NoneOf(r.history, |s.history|, t)
  {
    RunsHead(s, q, clock);
  }

  lemma StepGoesOn<T>(s: State<T>, op: Op<T>, clock: nat -> nat, r: State<T>)
    requires Inv(s) && Closed(s) && Enabled(s, op) && r == Step(s, op, clock)
    ensures GoesOn(s, r)
  {
    match op
    case DoSchedule(u, call, prio, ticks) => ScheduleRecords(s, u, call, prio, ticks, clock, r);
    case DoCancel(u) => CancelEnds(s, u, clock, r);
    case DoRun(q) => RunsHead(s, q, clock);
    case DoComplete(u) => CompletesActive(s, u, clock);
    case DoHandleEvent => EventKeepsHistory(s.(pending := false), clock, 0);
    case DoFire =>
  }

  lemma {:induction false} RunGoesOn<T>(s: State<T>, moves: seq<Move<T>>)
    requires Inv(s)
    ensures GoesOn(s, After(s, moves))
    decreases |moves|
  {
    if moves != [] {
      if Closed(s) && Enabled(s, moves[0].op) {
        var r := Step(s, moves[0].op, moves[0].clock);
        StepKeeps(s, moves[0].op, moves[0].clock);
        StepGoesOn(s, moves[0].op, moves[0].clock, r);
        RunGoesOn(r, moves[1..]);
        ExtendsOn(s.history, r.history, After(r, moves[1..]).history);
      } else {
        RunGoesOn(s, moves[1..]);
      }
    }
  }

  // ----- How soon a ready task runs

  /** How often the queue q is served on a run. */
  function Services<T>(moves: seq<Move<T>>, q: nat): nat {
    if moves == [] then 0 else (if moves[0].op == DoRun(q) then 1 else 0) + Services(moves[1..], q)
  }

  ghost predicate Spared<T>(moves: seq<Move<T>>, t: T) {
    forall i :: 0 <= i < |moves| ==> moves[i].op != DoCancel(t)
  }

  ghost predicate RanSince<T>(history: seq<Event<T>>, n: nat, t: T, call: Call) {
    exists i :: n <= i < |history| && history[i] == Ran(t, call)
  }

  lemma {:induction false} WithoutPosition<T>(list: seq<T>, k: nat, u: T) returns (j: nat)
    requires k < |list| && list[k] != u
    ensures j <= k && j < |Without(list, u)| && Without(list, u)[j] == list[k]
  {
    if list[0] == u {
      j := k - 1;
    } else if k == 0 {
      j := 0;
    } else {
      j := WithoutPosition(list[1..], k - 1, u);
      j := j + 1;
    }
  }

  /** A task with k others before it in its ready queue has run, with its call, once the queue was
      served more than k times, unless it was canceled: nothing overtakes it. */
  lemma {:induction false} RunsInTurn<T>(s: State<T>, moves: seq<Move<T>>, t: T, q: nat, k: nat)
    requires Inv(s) && Closed(s) && q < |s.ready| && k < |s.ready[q]| && s.ready[q][k] == t && t in s.info
    requires Spared(moves, t) && Services(moves, q) > k
    ensures RanSince(After(s, moves).history, |s.history|, t, s.info[t].call)
    decreases |moves|
  {
    var op, clock := moves[0].op, moves[0].clock;
    SparedTail(moves, t);
    if !Enabled(s, op) {
      RunsInTurn(s, moves[1..], t, q, k);
    } else {
      var r := Step(s, op, clock);
      StepKeeps(s, op, clock);
      InvIsClosed(r, multiset{});
      if op == DoRun(q) && k == 0 {
        RunsHead(s, q, clock);
        RunGoesOn(r, moves[1..]);
        assert r.history[|s.history|] == Ran(t, s.info[t].call);
      } else {
        var j := KeepsTurn(s, op, clock, t, q, k, r);
        RunsInTurn(r, moves[1..], t, q, j);
      }
    }
  }

  lemma LeftKeepsTurn<T>(list: seq<T>, op: Op<T>, t: T, q: nat, k: nat) returns (j: nat)
    requires k < |list| && list[k] == t && op != DoCancel(t) && !(op == DoRun(q) && k == 0)
    ensures j <= (if op == DoRun(q) then k - 1 else k) && j < |Left(list, op, q)| && Left(list, op, q)[j] == t
  {
    j := if op == DoRun(q) then k - 1 else k;
    if op.DoCancel? { j := WithoutPosition(list, k, op.task); }
  }

  lemma KeepsTurn<T>(s: State<T>, op: Op<T>, clock: nat -> nat, t: T, q: nat, k: nat, r: State<T>) returns (j: nat)
    requires Inv(s) && Closed(s) && Enabled(s, op) && q < |s.ready| && k < |s.ready[q]| && s.ready[q][k] == t && t in s.info
    requires r == Step(s, op, clock) && op != DoCancel(t) && !(op == DoRun(q) && k == 0)
    ensures q < |r.ready| && j <= (if op == DoRun(q) then k - 1 else k) && j < |r.ready[q]| && r.ready[q][j] == t
    ensures t in r.info && r.info[t] == s.info[t] && |r.history| >= |s.history|
  {
    NotElsewhere(s, t, q);
    if op.DoRun? { OnlyOnce(s, t, q, k, op.queue); }
    StepSpares(s, op, clock, t, r);
    StepKeepsOrder(s, op, clock, q, r);
    j := LeftKeepsTurn(s.ready[q], op, t, q, k);
    assert r.ready[q][j] == r.ready[q][..|Left(s.ready[q], op, q)|][j];
  }

  lemma TwoOccur<T>(list: seq<T>, i: nat, k: nat)
    requires i < k < |list| && list[i] == list[k]
    ensures multiset(list)[list[k]] >= 2
  {
    assert list == list[..k] + list[k..];
    assert list[..k][i] == list[k..][0] == list[k];
  }

  lemma OnlyOnce<T>(s: State<T>, t: T, q: nat, k: nat, p: nat)
    requires Inv(s) && t in s.info && q < |s.ready| && k < |s.ready[q]| && s.ready[q][k] == t && p < |s.ready|
    ensures s.ready[p] != [] && !(p == q && k == 0) ==> s.ready[p][0] != t
  {
    NotElsewhere(s, t, q);
    NotElsewhere(s, t, p);
    if p == q && k > 0 && s.ready[q][0] == t {
      TwoOccur(s.ready[q], 0, k);
    }
  }

  // ----- No task runs before its deadline

  /** A task is not due yet at any reading of the clock, and its delay was allowed. */
  ghost predicate NotYet<T>(s: State<T>, t: T, clock: nat -> nat, end: nat) {
    && t in s.info && end < s.info[t].deadline
    && forall j: nat :: clock(j) <= end && s.info[t].deadline < clock(j) + MAX_DELAY
  }

  lemma NotSeenDue(now: int, deadline: int)
    requires now < deadline < now + MAX_DELAY
    ensures !SeenDue(now, deadline)
  {
    WrapShifted(now - deadline, 1);
  }

  lemma {:induction false} EventLeavesWaiting<T>(s: State<T>, clock: nat -> nat, i: nat, t: T, end: nat)
    requires |s.ready| > 0 && TimersOk(s.info, s.timers) && t in s.timers && NotYet(s, t, clock, end)
    ensures t in TaskEvent(s, clock, i).timers
    decreases |s.timers|
  {
    HeadDueIsSeen(s, clock(i));
    if HeadDue(s, clock(i)) {
      NotSeenDue(clock(i), s.info[t].deadline);
      assert s.timers == [s.timers[0]] + s.timers[1..] && s.timers[0] != t;
      EventLeavesWaiting(ReleaseHead(s), clock, i + 1, t, end);
    }
  }

  lemma WaitStep<T>(s: State<T>, op: Op<T>, clock: nat -> nat, now: nat, end: nat, t: T, r: State<T>)
    requires Good(s, now) && Enabled(s, op) && Prompt(s, op, clock, now, end) && r == Step(s, op, clock)
    requires t in s.timers && t in s.info && end < s.info[t].deadline && op != DoCancel(t)
    ensures Waits(s, r, t)
  {
    InTimersIsQueued(s, t);
    var k :| 0 <= k < |s.timers| && s.timers[k] == t;
    assert NotYet(s, t, clock, end);
    if op.DoRun? { NotElsewhere(s, t, op.queue); }
    StepSpares(s, op, clock, t, r);
    match op
    case DoSchedule(u, call, prio, ticks) => ScheduleLeavesWaiting(s, u, call, prio, ticks, clock, end, t, r);
    case DoCancel(u) => CancelLeavesWaiting(s, u, clock, end, t, r);
    case DoRun(q) => RunsHead(s, q, clock);
    case DoComplete(u) => CompletesActive(s, u, clock);
    case DoHandleEvent => EventLeavesWaiting(s.(pending := false), clock, 0, t, end);
    case DoFire =>
  }

  lemma InTimersIsQueued<T>(s: State<T>, t: T)
    requires Inv(s) && t in s.timers && t in s.info
    ensures s.info[t].status == QUEUED
  {
    assert TaskOk(s.info[t], (Tally(s) + multiset{})[t], LedgerOf(s.history, t));
  }

  lemma ScheduleLeavesWaiting<T>(s: State<T>, u: T, call: Call, prio: nat, ticks: nat, clock: nat -> nat, end: nat, t: T, r: State<T>)
    requires Inv(s) && Closed(s) && u in s.info && r == Step(s, DoSchedule(u, call, prio, ticks), clock)
    requires t in s.timers && NotYet(s, t, clock, end)
    ensures t in r.timers
  {
    StatusOf(s, u);
    if s.info[u].status != QUEUED && ticks > 0 {
      var delay := Granted(ticks);
      var due := clock(0) + delay;
      InTimersIsQueued(s, t);
      ScheduleIsDelay(s, u, call, prio, ticks, clock, delay, due);
      PlaceKeeps(s, u, call, prio, due, InsertPos(s.timers, s.info, Wrap(due)));
      DelayLeavesWaiting(s, u, call, prio, delay, clock, due, end, t, Placed(s, u, call, prio, due), r);
    }
  }

  lemma DelayLeavesWaiting<T>(s: State<T>, u: T, call: Call, prio: nat, delay: nat, clock: nat -> nat, due: nat, end: nat, t: T,
                              placed: State<T>, r: State<T>)
    requires u in s.info && Closed(s) && due == clock(0) + delay && placed == Placed(s, u, call, prio, due)
    requires Closed(placed) && TimersOk(placed.info, placed.timers) && r == Delay(s, u, call, prio, delay, clock)
    requires (t in s.timers && t != u && NotYet(s, t, clock, end)) || (t == u && NotYet(placed, t, clock, end))
    ensures t in r.timers
  {
    var p := InsertPos(s.timers, s.info, Wrap(due));
    assert placed.timers[p] == u;
    if t != u {
      var k :| 0 <= k < |s.timers| && s.timers[k] == t;
      assert placed.timers[if k < p then k else k + 1] == t;
    }
    assert NotYet(placed, t, clock, end);
    EventLeavesWaiting(placed, clock, 1, t, end);
  }

  lemma CancelLeavesWaiting<T>(s: State<T>, u: T, clock: nat -> nat, end: nat, t: T, r: State<T>)
    requires Inv(s) && Closed(s) && u in s.info && u != t && r == Step(s, DoCancel(u), clock)
    requires t in s.timers && NotYet(s, t, clock, end)
    ensures t in r.timers
  {
    StatusOf(s, u);
    if u in s.timers {
      CancelTimerLeavesWaiting(s, u, clock, end, t);
    } else if s.info[u].status == QUEUED {
      var q := QueuedInItsQueue(s, u);
      var taken := Withdraw(ReadyTaken(s, q, u), u);
      assert NotYet(taken, t, clock, end) && TimersOk(taken.info, taken.timers);
      EventLeavesWaiting(taken, clock, 0, t, end);
    }
  }

  lemma CancelTimerLeavesWaiting<T>(s: State<T>, u: T, clock: nat -> nat, end: nat, t: T)
    requires Closed(s) && TimersOk(s.info, s.timers) && u in s.info && u != t && u in s.timers
    requires t in s.timers && NotYet(s, t, clock, end)
    ensures t in CancelTimer(s, u, clock).timers
  {
    WithoutKnown(s.timers, u, s.info);
    var k :| 0 <= k < |s.timers| && s.timers[k] == t;
    var j := WithoutPosition(s.timers, k, u);
    TimersOkWithout(s.info, s.timers, u);
    assert NotYet(TimerTaken(s, u), t, clock, end);
    EventLeavesWaiting(TimerTaken(s, u), clock, 0, t, end);
  }

  lemma TimersOkWithout<T>(info: map<T, Info>, timers: seq<T>, u: T)
    requires TimersOk(info, timers)
    ensures TimersOk(info, Without(timers, u))
  {
    WithoutMembers(timers, u);
    forall i | 0 <= i < |Without(timers, u)|
      ensures Without(timers, u)[i] in info && info[Without(timers, u)[i]].ticks == Wrap(info[Without(timers, u)[i]].deadline)
    {
      assert Without(timers, u)[i] in timers;
    }
  }

  lemma {:induction false} EndsGrow<T>(s: State<T>, moves: seq<Move<T>>, now: nat)
    requires AllPrompt(s, moves, now)
    ensures now <= EndOf(moves, now)
    decreases |moves|
  {
    if moves != [] {
      assert now <= moves[0].clock(0) <= moves[0].end;
      EndsGrow(Step(s, moves[0].op, moves[0].clock), moves[1..], moves[0].end);
    }
  }

  /** The task waits as before, and nothing has happened to it. */
  ghost predicate Waits<T>(s: State<T>, r: State<T>, t: T) {
    t in s.info && t in r.timers && t in r.info && r.info[t] == s.info[t] && GoesOn(s, r) && NoneOf(r.history, |s.history|, t)
  }

  lemma WaitsOn<T>(s: State<T>, r: State<T>, e: State<T>, t: T)
    requires Waits(s, r, t) && Waits(r, e, t)
    ensures Waits(s, e, t)
  {
    forall i | |s.history| <= i < |e.history| ensures e.history[i].task != t {
      if i < |r.history| { assert e.history[i] == e.history[..|r.history|][i]; }
    }
    assert e.history[..|s.history|] == e.history[..|r.history|][..|s.history|];
  }

  /** Over every prompt run that ends before its deadline, a waiting task that is not canceled waits:
      it neither runs nor gets ready. */
  lemma {:induction false} WaitsUntilDue<T>(s: State<T>, moves: seq<Move<T>>, now: nat, t: T)
    requires Good(s, now) && AllPrompt(s, moves, now) && t in s.timers && t in s.info
    requires EndOf(moves, now) < s.info[t].deadline && Spared(moves, t)
    ensures Waits(s, After(s, moves), t)
    decreases |moves|
  {
    if moves != [] {
      var m := moves[0];
      var r := Step(s, m.op, m.clock);
      EndsGrow(r, moves[1..], m.end);
      WaitStep(s, m.op, m.clock, now, m.end, t, r);
      StepIsTimely(s, m.op, m.clock, now, m.end);
      SparedTail(moves, t);
      WaitsUntilDue(r, moves[1..], m.end, t);
      WaitsOn(s, r, After(r, moves[1..]), t);
    }
  }

  lemma SparedTail<T>(moves: seq<Move<T>>, t: T)
    requires moves != [] && Spared(moves, t)
    ensures Spared(moves[1..], t) && moves[0].op != DoCancel(t)
  {
    forall i | 0 <= i < |moves[1..]| ensures moves[1..][i].op != DoCancel(t) { assert moves[1..][i] == moves[i + 1]; }
  }

  /** Over every prompt run a call accepted with a delay of d ticks at the time c is not run by a step
      that ends before c + d. */
  lemma NoEarlyRun<T>(s: State<T>, m: Move<T>, rest: seq<Move<T>>, now: nat, t: T, call: Call, prio: nat, ticks: nat)
    requires Good(s, now) && AllPrompt(s, [m] + rest, now) && m.op == DoSchedule(t, call, prio, ticks)
    requires t in s.info && s.info[t].status != QUEUED && 0 < ticks < 0x7FFF_FFFF && Spared(rest, t)
    requires EndOf(rest, m.end) < m.clock(0) + ticks
    ensures var r := After(s, [m] + rest);
            && |r.history| > |s.history| && r.history[|s.history|] == Accepted(t, call)
            && NoneOf(r.history, |s.history| + 1, t) && t in r.timers
  {
    PromptFirst(s, m, rest, now);
    var r := Step(s, m.op, m.clock);
    EndsGrow(r, rest, m.end);
    FirstWaits(s, m, now, t, call, prio, ticks, r);
    WaitsUntilDue(r, rest, m.end, t);
    AcceptedThen(s, r, After(r, rest), t, call);
  }

  lemma FirstWaits<T>(s: State<T>, m: Move<T>, now: nat, t: T, call: Call, prio: nat, ticks: nat, r: State<T>)
    requires Good(s, now) && Prompt(s, m.op, m.clock, now, m.end) && m.op == DoSchedule(t, call, prio, ticks)
    requires t in s.info && s.info[t].status != QUEUED && 0 < ticks < 0x7FFF_FFFF && m.end < m.clock(0) + ticks
    requires r == Step(s, m.op, m.clock)
    ensures Good(r, m.end) && t in r.timers && t in r.info && r.info[t].deadline == m.clock(0) + ticks
    ensures r.history == s.history + [Accepted(t, call)]
  {
    var due := m.clock(0) + ticks;
    StepIsTimely(s, m.op, m.clock, now, m.end);
    ScheduledFor(s, t, call, prio, ticks, m.clock, due, r);
    ScheduledWaits(s, t, call, prio, ticks, m.clock, due, m.end, r);
  }

  lemma PromptFirst<T>(s: State<T>, m: Move<T>, rest: seq<Move<T>>, now: nat)
    requires AllPrompt(s, [m] + rest, now)
    ensures Closed(s) && Enabled(s, m.op) && Prompt(s, m.op, m.clock, now, m.end)
    ensures AllPrompt(Step(s, m.op, m.clock), rest, m.end)
    ensures After(s, [m] + rest) == After(Step(s, m.op, m.clock), rest)
  {
    assert ([m] + rest)[1..] == rest;
  }

  lemma AcceptedThen<T>(s: State<T>, r: State<T>, e: State<T>, t: T, call: Call)
    requires r.history == s.history + [Accepted(t, call)] && Waits(r, e, t)
    ensures |e.history| > |s.history| && e.history[|s.history|] == Accepted(t, call) && NoneOf(e.history, |s.history| + 1, t)
  {
    assert e.history[|s.history|] == e.history[..|r.history|][|s.history|];
  }

  lemma ScheduledWaits<T>(s: State<T>, t: T, call: Call, prio: nat, ticks: nat, clock: nat -> nat, due: nat, end: nat, r: State<T>)
    requires Inv(s) && Closed(s) && t in s.info && s.info[t].status != QUEUED && 0 < ticks < 0x7FFF_FFFF
    requires due == clock(0) + ticks && end < due && (forall j: nat :: clock(0) <= clock(j) <= end)
    requires r == Step(s, DoSchedule(t, call, prio, ticks), clock)
    ensures t in r.timers
  {
    ScheduleIsDelay(s, t, call, prio, ticks, clock, ticks, due);
    PlaceKeeps(s, t, call, prio, due, InsertPos(s.timers, s.info, Wrap(due)));
    var placed := Placed(s, t, call, prio, due);
    PlacedRecords(s, t, call, prio, due, placed);
    assert NotYet(placed, t, clock, end);
    DelayLeavesWaiting(s, t, call, prio, ticks, clock, due, end, t, placed, r);
  }

  // ----- Timer events

  /** The timer expires once, and its event is pending until it is handled; then exactly the due tasks
      are released. */
  lemma FireThenHandle<T>(s: State<T>, clock: nat -> nat, now: nat, end: nat)
    requires Timely(s, now) && Closed(s) && ClockInWindow(s, clock, now, end)
    ensures s.armed.Some? ==> Step(s, DoFire, clock) == s.(armed := None, pending := true)
    ensures Step(s, DoHandleEvent, clock) == Released(s.(pending := false), DueCount(s.timers, s.info, clock, 0))
  {
    EventReleasesDue(s.(pending := false), clock, 0, now, end);
  }

  /** The state with the task t at the place p of the timer list. */
  predicate PutAt<T(==)>(s: State<T>, t: T, p: nat, placed: State<T>) {
    && p <= |s.timers| && placed.timers == s.timers[..p] + [t] + s.timers[p..]
    && placed.ready == s.ready && placed.armed == s.armed && placed.pending == s.pending
  }

  lemma PlacedIsPut<T>(s: State<T>, t: T, call: Call, prio: nat, due: nat, p: nat)
    requires t in s.info && Closed(s) && p == InsertPos(s.timers, s.info, Wrap(due))
    ensures PutAt(s, t, p, Placed(s, t, call, prio, due))
  {
  }

  lemma DelayCases<T>(s: State<T>, t: T, call: Call, prio: nat, delay: nat, clock: nat -> nat, due: nat, placed: State<T>, r: State<T>)
    requires t in s.info && Closed(s) && due == clock(0) + delay && placed == Placed(s, t, call, prio, due) && Closed(placed)
    requires r == Delay(s, t, call, prio, delay, clock)
    ensures var p := InsertPos(s.timers, s.info, Wrap(due));
            r == if p == 0 then placed.(armed := Some(due)) else if s.armed.Some? then placed else TaskEvent(placed, clock, 1)
  {
  }

  /** A task with a delay goes to the place of its true deadline in the timer list, ... */
  lemma ScheduledAt<T>(s: State<T>, t: T, call: Call, prio: nat, ticks: nat, now: nat, due: nat, placed: State<T>, p: nat)
    requires Good(s, now) && t in s.info && s.info[t].status != QUEUED && 0 < ticks < 0x7FFF_FFFF && due == now + ticks
    requires s.timers != [] ==> due < s.info[s.timers[0]].deadline + TWO_31
    requires p == InsertPos(s.timers, s.info, Wrap(due)) && placed == Placed(s, t, call, prio, due)
    ensures PutAt(s, t, p, placed) && TruePlace(s.timers, s.info, due, p)
  {
    NotListed(s, multiset{}, t);
    PlacedIsPut(s, t, call, prio, due, p);
    PlaceIsTrue(s, t, call, prio, ticks, now, due, p);
  }

  lemma PlaceIsTrue<T>(s: State<T>, t: T, call: Call, prio: nat, ticks: nat, now: nat, due: nat, p: nat)
    requires Timely(s, now) && t in s.info && t !in s.timers && 0 < ticks < MAX_DELAY && due == now + ticks
    requires (s.timers != [] ==> due < s.info[s.timers[0]].deadline + TWO_31) && p == InsertPos(s.timers, s.info, Wrap(due))
    ensures TruePlace(s.timers, s.info, due, p)
  {
    ScheduledInOrder(s, t, call, prio, ticks, now);
  }

  /** ... and where that is before all that wait, the timer is set for it; behind others the timer stays
      if it is set, and if not, the tasks that are due are released. */
  lemma ScheduledThen<T>(s: State<T>, t: T, call: Call, prio: nat, ticks: nat, clock: nat -> nat, now: nat, end: nat, due: nat,
                         placed: State<T>, p: nat, r: State<T>)
    requires Good(s, now) && t in s.info && s.info[t].status != QUEUED && 0 < ticks < 0x7FFF_FFFF && due == clock(0) + ticks
    requires r == Step(s, DoSchedule(t, call, prio, ticks), clock) && ClockInWindow(s, clock, now, end)
    requires s.timers != [] ==> due < s.info[s.timers[0]].deadline + TWO_31
    requires p == InsertPos(s.timers, s.info, Wrap(due)) && placed == Placed(s, t, call, prio, due)
    ensures AllKnown(placed.timers, placed.info)
    ensures r == if p == 0 then placed.(armed := Some(due)) else if s.armed.Some? then placed
                 else Released(placed, DueCount(placed.timers, placed.info, clock, 1))
  {
    ScheduleIsDelay(s, t, call, prio, ticks, clock, ticks, due);
    DelayCases(s, t, call, prio, ticks, clock, due, placed, r);
    TimelyLater(s, now, clock(0));
    if p > 0 && s.armed.None? { BehindReleases(s, t, call, prio, ticks, clock, now, end, due, placed); }
  }

  lemma BehindReleases<T>(s: State<T>, t: T, call: Call, prio: nat, ticks: nat, clock: nat -> nat, now: nat, end: nat, due: nat,
                          placed: State<T>)
    requires Timely(s, clock(0)) && Closed(s) && t in s.info && t !in s.timers && 0 < ticks < MAX_DELAY && due == clock(0) + ticks
    requires ClockInWindow(s, clock, now, end) && (s.timers != [] ==> due < s.info[s.timers[0]].deadline + TWO_31)
    requires placed == Placed(s, t, call, prio, due) && InsertPos(s.timers, s.info, Wrap(due)) > 0 && Closed(placed)
    ensures TaskEvent(placed, clock, 1) == Released(placed, DueCount(placed.timers, placed.info, clock, 1))
  {
    PlacedIsTimely(s, t, call, prio, ticks, clock(0));
    EventReleasesDue(placed, clock, 1, clock(0), end);
  }

  /** A cancellation of a waiting task behind others takes it from the timer list, and no more. */
  lemma CancelBehind<T>(s: State<T>, t: T, clock: nat -> nat, r: State<T>)
    requires Closed(s) && t in s.timers && t in s.info && s.timers[0] != t && r == Step(s, DoCancel(t), clock)
    ensures r.timers == Without(s.timers, t) && r.ready == s.ready && r.armed == s.armed && r.pending == s.pending
  {
  }

  /** A cancellation of the first waiting task, and one of a ready task, releases the tasks that are due
      and sets the timer for the next. */
  lemma CancelFirst<T>(s: State<T>, t: T, clock: nat -> nat, now: nat, end: nat, rest: State<T>, r: State<T>)
    requires Timely(s, now) && Closed(s) && t in s.info && s.timers != [] && s.timers[0] == t && ClockInWindow(s, clock, now, end)
    requires rest == s.(timers := s.timers[1..], listCount := s.listCount - 1) && r == Step(s, DoCancel(t), clock)
    ensures AllKnown(rest.timers, s.info) && SameLists(r, Released(rest, DueCount(rest.timers, s.info, clock, 0)))
  {
    WithoutOther(s, t, now);
    WithoutKnown(s.timers, t, s.info);
    assert rest == TimerTaken(s, t);
    if rest.timers != [] { assert InOrder(s.info, s.timers, 0, 1); }
    EventReleasesDue(rest, clock, 0, now, end);
  }

  lemma CancelOfReady<T>(s: State<T>, t: T, clock: nat -> nat, now: nat, end: nat, q: nat, rest: State<T>, r: State<T>)
    requires Good(s, now) && t in s.info && s.info[t].status == QUEUED && q < |s.ready| && t in s.ready[q]
    requires ClockInWindow(s, clock, now, end) && r == Step(s, DoCancel(t), clock)
    requires rest == s.(ready := s.ready[q := Without(s.ready[q], t)], readyCount := s.readyCount - 1,
                        info := s.info[t := s.info[t].(status := COMPLETE)],
                        history := s.history + [Canceled(t, Call(s.info[t].call.callback, s.info[t].call.parm % 0x1_0000_0000))])
    ensures AllKnown(rest.timers, rest.info) && r == Released(rest, DueCount(rest.timers, rest.info, clock, 0))
  {
    ReadyCanceled(s, t, clock, q, rest);
    TimelyElsewhere(s, rest, t, now);
    EventReleasesDue(rest, clock, 0, now, end);
  }

  lemma ReadyCanceled<T>(s: State<T>, t: T, clock: nat -> nat, q: nat, rest: State<T>)
    requires Inv(s) && Closed(s) && t in s.info && s.info[t].status == QUEUED && q < |s.ready| && t in s.ready[q]
    requires rest == Withdraw(ReadyTaken(s, q, t), t)
    ensures t !in s.timers && AllKnown(rest.timers, rest.info) && |rest.ready| > 0
    ensures Step(s, DoCancel(t), clock) == TaskEvent(rest, clock, 0)
  {
    NotElsewhere(s, t, q);
    StatusOf(s, t);
  }

  /** The same tasks in the same places, and the same timer. */
  predicate SameLists<T(==)>(a: State<T>, b: State<T>) {
    a.timers == b.timers && a.ready == b.ready && a.armed == b.armed && a.pending == b.pending
  }
}
