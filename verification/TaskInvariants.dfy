/**
 What every step of the task scheduler keeps: where a task is, what its status says, the
 counters, and the ledger of accepted calls and their outcomes.
 */
module TaskInvariants {
  import opened Common
  import opened TaskMachine

  // ----- The ledger of a task

  /** The account of one task over a history: settled, or open with one accepted call. An
      acceptance while open, or an outcome that is not that of the open call, breaks it. */
  datatype Ledger = Settled | Open(call: Call) | Broken

  function Post<T(==)>(l: Ledger, e: Event<T>, t: T): Ledger {
    if e.task != t then l
    else match e
      case Accepted(_, call) => if l.Settled? then Open(call) else Broken
      case Ran(_, call) => if l == Open(call) then Settled else Broken
      case Canceled(_, call) => if l.Open? && call == CanceledCall(l.call) then Settled else Broken
  }

  function LedgerOf<T(==)>(history: seq<Event<T>>, t: T): Ledger {
    if history == [] then Settled
    else Post(LedgerOf(history[..|history| - 1], t), history[|history| - 1], t)
  }

  function Acceptances<T(==)>(history: seq<Event<T>>, t: T): nat {
    if history == [] then 0
    else Acceptances(history[..|history| - 1], t)
         + if history[|history| - 1].Accepted? && history[|history| - 1].task == t then 1 else 0
  }

  function Outcomes<T(==)>(history: seq<Event<T>>, t: T): nat {
    if history == [] then 0
    else Outcomes(history[..|history| - 1], t)
         + if !history[|history| - 1].Accepted? && history[|history| - 1].task == t then 1 else 0
  }

  /** An unbroken ledger has one outcome for each acceptance but the open one. */
  lemma {:induction false} UnbrokenBalances<T>(history: seq<Event<T>>, t: T)
    requires !LedgerOf(history, t).Broken?
    ensures Acceptances(history, t) == Outcomes(history, t) + if LedgerOf(history, t).Open? then 1 else 0
  {
    if history != [] {
      UnbrokenBalances(history[..|history| - 1], t);
    }
  }

  lemma {:induction false} PrefixUnbroken<T>(history: seq<Event<T>>, t: T, i: nat)
    requires i <= |history| && !LedgerOf(history, t).Broken?
    ensures !LedgerOf(history[..i], t).Broken?
    decreases |history|
  {
    if i < |history| {
      var n := |history| - 1;
      PrefixUnbroken(history[..n], t, i);
      assert history[..n][..i] == history[..i];
    } else {
      assert history[..i] == history;
    }
  }

  /** Every outcome in an unbroken ledger is that of the call open then. */
  lemma OutcomeOfOpen<T>(history: seq<Event<T>>, t: T, i: nat)
    requires !LedgerOf(history, t).Broken? && i < |history| && history[i].task == t && !history[i].Accepted?
    ensures LedgerOf(history[..i], t).Open?
    ensures history[i].Ran? ==> history[i].call == LedgerOf(history[..i], t).call
    ensures history[i].Canceled? ==>
      (history[i].call == LedgerOf(history[..i], t).call <==> LedgerOf(history[..i], t).call.parm < TWO_32)
  {
    PrefixUnbroken(history, t, i + 1);
    assert history[..i + 1][..i] == history[..i];
  }

  lemma LedgerGrows<T>(history: seq<Event<T>>, e: Event<T>, t: T)
    ensures LedgerOf(history + [e], t) == Post(LedgerOf(history, t), e, t)
  {
    assert (history + [e])[..|history|] == history;
  }

  // ----- The invariant

  /** All tasks in the ready queues, with multiplicity. */
  ghost function Pool<T>(ready: seq<seq<T>>): multiset<T> {
    if ready == [] then multiset{} else Pool(ready[..|ready| - 1]) + multiset(ready[|ready| - 1])
  }

  /** How often each task lies in a list. */
  ghost function Tally<T>(s: State<T>): multiset<T> {
    multiset(s.timers) + Pool(s.ready)
  }

  /** A task is complete, queued or active; it is queued exactly if it lies in one list, once,
      or is in flight between two; its ledger is open exactly if it is queued. */
  ghost predicate TaskOk(info: Info, count: nat, ledger: Ledger) {
    && info.status in {COMPLETE, QUEUED, ACTIVE_BIT} && info.prio < 0x100
    && count == (if info.status == QUEUED then 1 else 0)
    && ledger == (if info.status == QUEUED then Open(info.call) else Settled)
  }

  ghost predicate TasksOk<T>(info: map<T, Info>, tally: multiset<T>, history: seq<Event<T>>) {
    forall t :: t in info ==> TaskOk(info[t], tally[t], LedgerOf(history, t))
  }

  /** A ready queue holds known tasks of its own priority. */
  ghost predicate QueueOk<T>(info: map<T, Info>, list: seq<T>, q: nat, pool: nat)
    requires pool > 0
  {
    forall i :: 0 <= i < |list| ==> list[i] in info && QueueOf(info[list[i]].prio, pool) == q
  }

  ghost predicate QueuesOk<T>(info: map<T, Info>, ready: seq<seq<T>>) {
    |ready| > 0 && forall q :: 0 <= q < |ready| ==> QueueOk(info, ready[q], q, |ready|)
  }

  /** The 32-bit ticks of a waiting task are those of its deadline. */
  ghost predicate TimersOk<T>(info: map<T, Info>, timers: seq<T>) {
    forall i :: 0 <= i < |timers| ==> timers[i] in info && info[timers[i]].ticks == Wrap(info[timers[i]].deadline)
  }

  ghost predicate InvWith<T>(s: State<T>, flight: multiset<T>) {
    && TasksOk(s.info, Tally(s) + flight, s.history)
    && QueuesOk(s.info, s.ready)
    && TimersOk(s.info, s.timers)
    && s.listCount == |s.timers| && s.readyCount == |Pool(s.ready)|
  }

  ghost predicate Inv<T>(s: State<T>) {
    InvWith(s, multiset{})
  }

  lemma InvIsClosed<T>(s: State<T>, flight: multiset<T>)
    requires InvWith(s, flight)
    ensures Closed(s)
  {
    forall q | 0 <= q < |s.ready| ensures AllKnown(s.ready[q], s.info) {
      assert QueueOk(s.info, s.ready[q], q, |s.ready|);
    }
  }

  // ----- Lists

  lemma {:induction false} PoolSplits<T>(ready: seq<seq<T>>, q: nat, list: seq<T>)
    requires q < |ready|
    ensures Pool(ready[q := list]) == Pool(ready[q := []]) + multiset(list)
  {
    var n := |ready| - 1;
    if q < n {
      PoolSplits(ready[..n], q, list);
      assert ready[q := list][..n] == ready[..n][q := list];
      assert ready[q := []][..n] == ready[..n][q := []];
    } else {
      assert ready[q := list][..n] == ready[..n] == ready[q := []][..n];
    }
  }

  lemma PoolUpdated<T>(ready: seq<seq<T>>, q: nat, list: seq<T>)
    requires q < |ready|
    ensures multiset(ready[q]) <= Pool(ready)
    ensures Pool(ready[q := list]) == Pool(ready) - multiset(ready[q]) + multiset(list)
  {
    PoolSplits(ready, q, list);
    PoolSplits(ready, q, ready[q]);
    assert ready[q := ready[q]] == ready;
  }

  lemma InsertedCounts<T>(list: seq<T>, p: nat, t: T)
    requires p <= |list|
    ensures multiset(Inserted(list, p, t)) == multiset(list) + multiset{t}
  {
    assert list == list[..p] + list[p..];
  }

  lemma PoolGrows<T>(ready: seq<seq<T>>, q: nat, t: T)
    requires q < |ready|
    ensures Pool(ready[q := ready[q] + [t]]) == Pool(ready) + multiset{t}
  {
    PoolUpdated(ready, q, ready[q] + [t]);
  }

  lemma PoolShrinks<T>(ready: seq<seq<T>>, q: nat, t: T)
    requires q < |ready| && t in ready[q]
    ensures Pool(ready[q := Without(ready[q], t)]) + multiset{t} == Pool(ready)
  {
    PoolUpdated(ready, q, Without(ready[q], t));
    WithoutCounts(ready[q], t);
  }

  lemma QueueReplaced<T>(info: map<T, Info>, ready: seq<seq<T>>, q: nat, list: seq<T>)
    requires QueuesOk(info, ready) && q < |ready| && QueueOk(info, list, q, |ready|)
    ensures QueuesOk(info, ready[q := list])
  {
    var r := ready[q := list];
    forall k | 0 <= k < |r| ensures QueueOk(info, r[k], k, |ready|) {
      assert QueueOk(info, ready[k], k, |ready|);
    }
  }

  lemma WithoutIsOk<T>(info: map<T, Info>, list: seq<T>, q: nat, pool: nat, t: T)
    requires pool > 0 && QueueOk(info, list, q, pool)
    ensures QueueOk(info, Without(list, t), q, pool)
  {
    WithoutMembers(list, t);
    forall i | 0 <= i < |Without(list, t)|
      ensures Without(list, t)[i] in info && QueueOf(info[Without(list, t)[i]].prio, pool) == q
    {
      assert Without(list, t)[i] in list;
    }
  }

  /** Changing what is recorded of a task in no list, or only its status, keeps the lists ok. */
  lemma InfoReplaced<T>(info: map<T, Info>, t: T, i: Info, timers: seq<T>, ready: seq<seq<T>>)
    requires t in info && QueuesOk(info, ready) && TimersOk(info, timers)
    requires (t !in timers && forall q :: 0 <= q < |ready| ==> t !in ready[q]) || i == info[t].(status := i.status)
    ensures QueuesOk(info[t := i], ready) && TimersOk(info[t := i], timers)
  {
    forall k | 0 <= k < |ready| ensures QueueOk(info[t := i], ready[k], k, |ready|) {
      assert QueueOk(info, ready[k], k, |ready|);
    }
  }

  // ----- Parts of steps

  lemma ToReadyTally<T>(s: State<T>, flight: multiset<T>, t: T)
    requires t in s.info && |s.ready| > 0
    ensures Tally(ToReady(s, t)) + flight == Tally(s) + (flight + multiset{t})
  {
    PoolGrows(s.ready, QueueOf(s.info[t].prio, |s.ready|), t);
  }

  lemma ToReadyQueues<T>(s: State<T>, t: T)
    requires QueuesOk(s.info, s.ready) && t in s.info
    ensures QueuesOk(s.info, ToReady(s, t).ready)
    ensures |Pool(ToReady(s, t).ready)| == |Pool(s.ready)| + 1
  {
    var q := QueueOf(s.info[t].prio, |s.ready|);
    PoolGrows(s.ready, q, t);
    assert QueueOk(s.info, s.ready[q], q, |s.ready|);
    QueueReplaced(s.info, s.ready, q, s.ready[q] + [t]);
  }

  lemma ToReadyKeeps<T>(s: State<T>, flight: multiset<T>, t: T)
    requires InvWith(s, flight + multiset{t}) && t in s.info
    ensures InvWith(ToReady(s, t), flight)
  {
    ToReadyTally(s, flight, t);
    ToReadyQueues(s, t);
  }

  lemma PopHeadKeeps<T>(s: State<T>, flight: multiset<T>)
    requires InvWith(s, flight) && s.timers != []
    ensures InvWith(HeadPopped(s), flight + multiset{s.timers[0]})
  {
    assert s.timers == [s.timers[0]] + s.timers[1..];
    assert Tally(HeadPopped(s)) + (flight + multiset{s.timers[0]}) == Tally(s) + flight;
  }

  lemma {:induction false} TaskEventKeeps<T>(s: State<T>, flight: multiset<T>, clock: nat -> nat, i: nat)
    requires InvWith(s, flight)
    ensures InvWith(TaskEvent(s, clock, i), flight)
    decreases |s.timers|
  {
    if s.timers != [] && HeadDue(s, clock(i)) {
      PopHeadKeeps(s, flight);
      ToReadyKeeps(HeadPopped(s), flight, s.timers[0]);
      TaskEventKeeps(ReleaseHead(s), flight, clock, i + 1);
    }
  }

  /** A task that is not queued lies in no list. */
  lemma NotListed<T>(s: State<T>, flight: multiset<T>, t: T)
    requires InvWith(s, flight) && t in s.info && s.info[t].status != QUEUED
    ensures t !in s.timers && forall q :: 0 <= q < |s.ready| ==> t !in s.ready[q]
  {
    assert TaskOk(s.info[t], (Tally(s) + flight)[t], LedgerOf(s.history, t));
    assert t !in multiset(s.timers) && t !in Pool(s.ready);
    forall q | 0 <= q < |s.ready| ensures t !in s.ready[q] {
      PoolUpdated(s.ready, q, []);
      assert t !in multiset(s.ready[q]);
    }
  }

  lemma AcceptKeeps<T>(s: State<T>, t: T, call: Call, prio: nat, ticks: nat, deadline: nat)
    requires Inv(s) && t in s.info && s.info[t].status != QUEUED
    ensures InvWith(Accept(s, t, call, prio, ticks, deadline), multiset{t})
  {
    var r := Accept(s, t, call, prio, ticks, deadline);
    NotListed(s, multiset{}, t);
    InfoReplaced(s.info, t, r.info[t], s.timers, s.ready);
    forall x | x in r.info ensures TaskOk(r.info[x], (Tally(r) + multiset{t})[x], LedgerOf(r.history, x)) {
      assert TaskOk(s.info[x], (Tally(s) + multiset{})[x], LedgerOf(s.history, x));
      LedgerGrows(s.history, Accepted(t, call), x);
    }
  }

  lemma InsertKeeps<T>(s: State<T>, t: T, p: nat)
    requires InvWith(s, multiset{t}) && TimersOk(s.info, [t]) && p <= |s.timers|
    ensures Inv(TimerInserted(s, p, t))
  {
    InsertedCounts(s.timers, p, t);
    assert Tally(TimerInserted(s, p, t)) + multiset{} == Tally(s) + multiset{t};
    TimersOkInserted(s.info, s.timers, p, t);
  }

  lemma TimersOkInserted<T>(info: map<T, Info>, timers: seq<T>, p: nat, t: T)
    requires TimersOk(info, timers) && TimersOk(info, [t]) && p <= |timers|
    ensures TimersOk(info, Inserted(timers, p, t))
  {
    var r := Inserted(timers, p, t);
    assert [t][0] in info;
    forall i | 0 <= i < |r| ensures r[i] in info && info[r[i]].ticks == Wrap(info[r[i]].deadline) {
      if i < p { assert r[i] == timers[i]; }
      if i > p { assert r[i] == timers[i - 1]; }
    }
  }

  lemma TakeTimerKeeps<T>(s: State<T>, t: T)
    requires Inv(s) && t in s.timers
    ensures InvWith(TimerTaken(s, t), multiset{t})
  {
    WithoutCounts(s.timers, t);
    WithoutMembers(s.timers, t);
    assert Tally(TimerTaken(s, t)) + multiset{t} == Tally(s) + multiset{};
    forall i | 0 <= i < |Without(s.timers, t)| ensures Without(s.timers, t)[i] in s.timers {}
  }

  lemma TakeReadyKeeps<T>(s: State<T>, q: nat, t: T)
    requires Inv(s) && q < |s.ready| && t in s.ready[q]
    ensures InvWith(ReadyTaken(s, q, t), multiset{t})
  {
    PoolShrinks(s.ready, q, t);
    assert Tally(ReadyTaken(s, q, t)) + multiset{t} == Tally(s) + multiset{};
    assert QueueOk(s.info, s.ready[q], q, |s.ready|);
    WithoutIsOk(s.info, s.ready[q], q, |s.ready|, t);
    QueueReplaced(s.info, s.ready, q, Without(s.ready[q], t));
  }

  /** A task in flight gets its outcome: it is neither queued nor in a list any more. */
  lemma SettleKeeps<T>(s: State<T>, t: T, status: nat, e: Event<T>)
    requires InvWith(s, multiset{t}) && t in s.info && status in {COMPLETE, ACTIVE_BIT}
    requires e == Ran(t, s.info[t].call) || e == Canceled(t, CanceledCall(s.info[t].call))
    ensures Inv(Settle(s, t, status, e))
  {
    var r := Settle(s, t, status, e);
    InfoReplaced(s.info, t, r.info[t], s.timers, s.ready);
    assert TaskOk(s.info[t], (Tally(s) + multiset{t})[t], LedgerOf(s.history, t));
    forall x | x in r.info ensures TaskOk(r.info[x], (Tally(r) + multiset{})[x], LedgerOf(r.history, x)) {
      assert TaskOk(s.info[x], (Tally(s) + multiset{t})[x], LedgerOf(s.history, x));
      LedgerGrows(s.history, e, x);
    }
  }

  // ----- Steps

  lemma AddKeeps<T>(s: State<T>, t: T, call: Call, prio: nat)
    requires Inv(s) && t in s.info && s.info[t].status != QUEUED
    ensures Inv(Add(s, t, call, prio).0)
  {
    AcceptKeeps(s, t, call, prio, 0, 0);
    assert multiset{} + multiset{t} == multiset{t};
    ToReadyKeeps(Accept(s, t, call, prio, 0, 0), multiset{}, t);
  }

  /** The task with its new deadline goes to some place in the timer list. */
  lemma PlaceKeeps<T>(s: State<T>, t: T, call: Call, prio: nat, due: nat, p: nat)
    requires Inv(s) && t in s.info && s.info[t].status != QUEUED && p <= |s.timers|
    ensures Inv(TimerInserted(Accept(s, t, call, prio, Wrap(due), due), p, t))
  {
    AcceptKeeps(s, t, call, prio, Wrap(due), due);
    InsertKeeps(Accept(s, t, call, prio, Wrap(due), due), t, p);
  }

  lemma TimerSetKeeps<T>(s: State<T>, now: nat, ticks: nat)
    requires Inv(s)
    ensures Inv(SetTimer(s, now, ticks))
  {
  }

  lemma DelayKeeps<T>(s: State<T>, t: T, call: Call, prio: nat, delay: nat, clock: nat -> nat)
    requires Inv(s) && Closed(s) && t in s.info && s.info[t].status != QUEUED
    ensures Inv(Delay(s, t, call, prio, delay, clock))
  {
    var due := clock(0) + delay;
    var p := InsertPos(s.timers, s.info, Wrap(due));
    PlaceKeeps(s, t, call, prio, due, p);
    var s1 := TimerInserted(Accept(s, t, call, prio, Wrap(due), due), p, t);
    if p == 0 {
      TimerSetKeeps(s1, clock(0), delay);
    } else if s.armed == None {
      TaskEventKeeps(s1, multiset{}, clock, 1);
    }
  }

  lemma CancelTimerKeeps<T>(s: State<T>, t: T, clock: nat -> nat)
    requires Inv(s) && Closed(s) && t in s.info && t in s.timers
    ensures Inv(CancelTimer(s, t, clock))
  {
    TakeTimerKeeps(s, t);
    WithoutKnown(s.timers, t, s.info);
    var e := Canceled(t, CanceledCall(s.info[t].call));
    if s.timers[0] == t {
      TaskEventKeeps(TimerTaken(s, t), multiset{t}, clock, 0);
      SettleKeeps(TaskEvent(TimerTaken(s, t), clock, 0), t, COMPLETE, e);
    } else {
      SettleKeeps(TimerTaken(s, t), t, COMPLETE, e);
    }
  }

  lemma CancelReadyKeeps<T>(s: State<T>, q: nat, t: T, clock: nat -> nat)
    requires Inv(s) && Closed(s) && t in s.info && q < |s.ready| && t in s.ready[q]
    ensures Inv(CancelReady(s, q, t, clock))
  {
    TakeReadyKeeps(s, q, t);
    SettleKeeps(ReadyTaken(s, q, t), t, COMPLETE, Canceled(t, CanceledCall(s.info[t].call)));
    TaskEventKeeps(Withdraw(ReadyTaken(s, q, t), t), multiset{}, clock, 0);
  }

  lemma StatusOf<T>(s: State<T>, t: T)
    requires Inv(s) && t in s.info
    ensures s.info[t].status in {COMPLETE, QUEUED, ACTIVE_BIT}
    ensures Masked(s.info[t].status) == if s.info[t].status == QUEUED then QUEUED else COMPLETE
    ensures IsActive(s.info[t].status) <==> s.info[t].status == ACTIVE_BIT
  {
    assert TaskOk(s.info[t], (Tally(s) + multiset{})[t], LedgerOf(s.history, t));
  }

  /** A queued task that does not wait in the timer list is in the ready queue of its
      priority: the assertion of `task_ready_cancel` cannot fail. */
  lemma QueuedInItsQueue<T>(s: State<T>, t: T) returns (q: nat)
    requires Inv(s) && t in s.info && s.info[t].status == QUEUED && t !in s.timers
    ensures q < |s.ready| && t in s.ready[q] && q == QueueOf(s.info[t].prio, |s.ready|)
  {
    assert TaskOk(s.info[t], (Tally(s) + multiset{})[t], LedgerOf(s.history, t));
    assert t !in multiset(s.timers);
    q := InSomeQueue(s.ready, t);
    assert QueueOk(s.info, s.ready[q], q, |s.ready|);
  }

  lemma {:induction false} InSomeQueue<T>(ready: seq<seq<T>>, t: T) returns (q: nat)
    requires t in Pool(ready)
    ensures q < |ready| && t in ready[q]
  {
    q := |ready| - 1;
    if t !in multiset(ready[q]) {
      q := InSomeQueue(ready[..|ready| - 1], t);
    }
  }

  lemma RunKeeps<T>(s: State<T>, q: nat)
    requires Inv(s) && Closed(s) && q < |s.ready|
    ensures Inv(Run(s, q))
  {
    if s.ready[q] != [] {
      var t := s.ready[q][0];
      assert Without(s.ready[q], t) == s.ready[q][1..];
      assert AllKnown(s.ready[q], s.info);
      TakeReadyKeeps(s, q, t);
      SettleKeeps(ReadyTaken(s, q, t), t, ACTIVE_BIT, Ran(t, s.info[t].call));
    }
  }

  lemma CompleteKeeps<T>(s: State<T>, t: T)
    requires Inv(s) && t in s.info
    ensures Inv(Complete(s, t))
  {
    var r := Complete(s, t);
    assert TaskOk(s.info[t], (Tally(s) + multiset{})[t], LedgerOf(s.history, t));
    InfoReplaced(s.info, t, r.info[t], s.timers, s.ready);
    forall x | x in r.info ensures TaskOk(r.info[x], (Tally(r) + multiset{})[x], LedgerOf(r.history, x)) {
      assert TaskOk(s.info[x], (Tally(s) + multiset{})[x], LedgerOf(s.history, x));
    }
  }

  lemma ScheduleKeeps<T>(s: State<T>, t: T, call: Call, prio: nat, ticks: nat, clock: nat -> nat)
    requires Inv(s) && Closed(s) && t in s.info
    ensures Inv(Schedule(s, t, call, prio, ticks, clock).0)
  {
    StatusOf(s, t);
    if s.info[t].status != QUEUED {
      if Clamp(ticks) == 0 {
        AddKeeps(s, t, call, prio);
      } else {
        DelayKeeps(s, t, call, prio, Clamp(ticks), clock);
      }
    }
  }

  lemma CancelKeeps<T>(s: State<T>, t: T, clock: nat -> nat)
    requires Inv(s) && Closed(s) && t in s.info
    ensures Inv(Cancel(s, t, clock).0)
  {
    StatusOf(s, t);
    if t in s.timers {
      CancelTimerKeeps(s, t, clock);
    } else if s.info[t].status == QUEUED {
      var q := QueuedInItsQueue(s, t);
      CancelReadyKeeps(s, q, t, clock);
    }
  }

  /** Every step keeps the invariant, whatever the clock does. */
  lemma StepKeeps<T>(s: State<T>, op: Op<T>, clock: nat -> nat)
    requires Inv(s) && Closed(s) && Enabled(s, op)
    ensures Inv(Step(s, op, clock))
  {
    match op
    case DoSchedule(t, call, prio, ticks) => ScheduleKeeps(s, t, call, prio, ticks, clock);
    case DoCancel(t) => CancelKeeps(s, t, clock);
    case DoRun(q) => RunKeeps(s, q);
    case DoComplete(t) => CompleteKeeps(s, t);
    case DoFire =>
    case DoHandleEvent => TaskEventKeeps(s.(pending := false), multiset{}, clock, 0);
  }
}
