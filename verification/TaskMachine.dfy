/**
 The task scheduler (src/svc/svc_tasks.c) as a state machine. Every call is one step; tasks
 are named by values of a type T.

 The code compares 32-bit tick counts that wrap around. Each task also carries the true
 time of its deadline, which no code reads, and a step is given the true times its
 successive readings of the clock return.
 */
module TaskMachine {
  import opened Common

  const TWO_31: int := 0x8000_0000
  const TWO_32: int := 0x1_0000_0000
  const MAX_DELAY: int := 0x7FFF_FFFF  // ((uint32_t)-1) / 2

  const EOK: int := 0
  const E_BUSY: int := -2306

  const COMPLETE: nat := 0
  const QUEUED: nat := 1
  const ACTIVE_BIT: nat := 8

  /** The task's status without the active bit. */
  function Masked(status: nat): nat {
    status % 8
  }

  predicate IsActive(status: nat) {
    (status / 8) % 2 == 1
  }

  /** Arithmetic in 32 bits wraps around. */
  function Wrap(x: int): (r: nat)
    ensures r < 0x1_0000_0000
  {
    x % 0x1_0000_0000
  }

  /** (int32_t)(a - b) for 32-bit a and b. */
  function Diff(a: int, b: int): int {
    var d := Wrap(a - b);
    if d < TWO_31 then d else d - TWO_32
  }

  /** Within half the range of 32 bits the difference of tick counts is the true one. */
  lemma DiffIsTrue(a: int, b: int)
    requires -TWO_31 <= a - b < TWO_31
    ensures Diff(Wrap(a), Wrap(b)) == a - b
  {
  }

  datatype Call = Call(callback: nat, parm: nat)

  datatype Info = Info(status: nat, call: Call, prio: nat, ticks: nat, deadline: nat, stamp: nat)

  datatype Event<T> =
    | Accepted(task: T, call: Call)
    | Ran(task: T, call: Call)
    | Canceled(task: T, call: Call)

  datatype State<T> = State(
    timers: seq<T>,            // waiting for their deadline, the earliest first
    ready: seq<seq<T>>,        // one queue for each thread
    info: map<T, Info>,        // all initialized tasks
    listCount: int,
    readyCount: int,
    armed: Option<nat>,        // the true time the one-shot timer expires
    pending: bool,             // a timer event is signalled and not handled yet
    history: seq<Event<T>>)

  /** `SVC_PRIO2QUEUE`. */
  function QueueOf(prio: nat, pool: nat): (q: nat)
    requires pool > 0
    ensures q < pool
  {
    if prio < pool then prio else pool - 1
  }

  /** The list holds known tasks only. */
  predicate AllKnown<T(==)>(list: seq<T>, info: map<T, Info>) {
    forall i :: 0 <= i < |list| ==> list[i] in info
  }

  /** So do all lists, and there is at least one queue. */
  predicate Closed<T(==)>(s: State<T>) {
    && |s.ready| > 0 && AllKnown(s.timers, s.info)
    && forall q :: 0 <= q < |s.ready| ==> AllKnown(s.ready[q], s.info)
  }

  // ----- Steps

  function WithStatus<T(==)>(s: State<T>, t: T, status: nat): (r: State<T>)
    requires t in s.info
    ensures r.info.Keys == s.info.Keys
  {
    s.(info := s.info[t := s.info[t].(status := status)])
  }

  /** `task_to_ready`. */
  function ToReady<T(==)>(s: State<T>, t: T): (r: State<T>)
    requires t in s.info && |s.ready| > 0
    ensures |r.ready| == |s.ready|
  {
    var q := QueueOf(s.info[t].prio, |s.ready|);
    s.(ready := s.ready[q := s.ready[q] + [t]], readyCount := s.readyCount + 1)
  }

  function HeadPopped<T>(s: State<T>): State<T>
    requires s.timers != []
  {
    s.(timers := s.timers[1..], listCount := s.listCount - 1)
  }

  function ReleaseHead<T(==)>(s: State<T>): State<T>
    requires s.timers != [] && s.timers[0] in s.info && |s.ready| > 0
  {
    ToReady(HeadPopped(s), s.timers[0])
  }

  function SetTimer<T>(s: State<T>, now: nat, ticks: nat): State<T> {
    s.(armed := Some(now + ticks))
  }

  /** The head of the timer list is due at the true time `now`, as far as ticks tell. */
  predicate HeadDue<T(==)>(s: State<T>, now: nat)
    requires s.timers != [] && s.timers[0] in s.info
  {
    Diff(s.info[s.timers[0]].ticks, Wrap(now)) <= 0
  }

  /** `svc_tasks_task_event`: the i-th reading of the clock decides on the i-th head. */
  function TaskEvent<T(==)>(s: State<T>, clock: nat -> nat, i: nat): (r: State<T>)
    requires |s.ready| > 0 && AllKnown(s.timers, s.info)
    ensures r.info == s.info && |r.ready| == |s.ready|
    decreases |s.timers|
  {
    if s.timers == [] then s
    else if HeadDue(s, clock(i)) then TaskEvent(ReleaseHead(s), clock, i + 1)
    else SetTimer(s, clock(i), Wrap(s.info[s.timers[0]].ticks - clock(i)))
  }

  function Accept<T(==)>(s: State<T>, t: T, call: Call, prio: nat, ticks: nat, deadline: nat): (r: State<T>)
    requires t in s.info
    ensures r.info.Keys == s.info.Keys
  {
    s.(info := s.info[t := Info(QUEUED, call, prio % 0x100, ticks, deadline, |s.history|)],
       history := s.history + [Accepted(t, call)])
  }

  /** `svc_tasks_add`. */
  function Add<T(==)>(s: State<T>, t: T, call: Call, prio: nat): (State<T>, int)
    requires t in s.info && |s.ready| > 0
  {
    if Masked(s.info[t].status) == QUEUED then (s, E_BUSY)
    else (ToReady(Accept(s, t, call, prio, 0, 0), t), EOK)
  }

  /** The place of a new deadline in the timer list: after the tasks whose ticks are not later. */
  function InsertPos<T(==)>(timers: seq<T>, info: map<T, Info>, ticks: nat): (p: nat)
    requires AllKnown(timers, info)
    ensures p <= |timers|
  {
    if timers == [] || Diff(ticks, info[timers[0]].ticks) < 0 then 0
    else 1 + InsertPos(timers[1..], info, ticks)
  }

  function Clamp(ticks: nat): nat {
    if ticks >= MAX_DELAY then MAX_DELAY - 1 else ticks
  }

  function Inserted<T>(timers: seq<T>, p: nat, t: T): seq<T>
    requires p <= |timers|
  {
    timers[..p] + [t] + timers[p..]
  }

  function TimerInserted<T>(s: State<T>, p: nat, t: T): State<T>
    requires p <= |s.timers|
  {
    s.(timers := Inserted(s.timers, p, t), listCount := s.listCount + 1)
  }

  /** The part of `svc_tasks_schedule` for a delay and a task that is not queued: clock(0) is
      the time the deadline is counted from. */
  function Delay<T(==)>(s: State<T>, t: T, call: Call, prio: nat, delay: nat, clock: nat -> nat): State<T>
    requires t in s.info && Closed(s)
  {
    var due := clock(0) + delay;
    var p := InsertPos(s.timers, s.info, Wrap(due));
    var s1 := TimerInserted(Accept(s, t, call, prio, Wrap(due), due), p, t);
    if p == 0 then SetTimer(s1, clock(0), delay)
    else if s.armed == None then TaskEvent(s1, clock, 1)
    else s1
  }

  /** `svc_tasks_schedule`. */
  function Schedule<T(==)>(s: State<T>, t: T, call: Call, prio: nat, ticks: nat, clock: nat -> nat): (State<T>, int)
    requires t in s.info && Closed(s)
  {
    if Clamp(ticks) == 0 then Add(s, t, call, prio)
    else if Masked(s.info[t].status) == QUEUED then (s, E_BUSY)
    else (Delay(s, t, call, prio, Clamp(ticks), clock), EOK)
  }

  function TimerTaken<T(==)>(s: State<T>, t: T): State<T> {
    s.(timers := Without(s.timers, t), listCount := s.listCount - 1)
  }

  function ReadyTaken<T(==)>(s: State<T>, q: nat, t: T): State<T>
    requires q < |s.ready|
  {
    s.(ready := s.ready[q := Without(s.ready[q], t)], readyCount := s.readyCount - 1)
  }

  /** The parameter of a canceled call passes through a 32-bit variable. */
  function CanceledCall(call: Call): Call {
    Call(call.callback, Wrap(call.parm))
  }

  /** The task has left its list, and its callback is called. */
  function Settle<T(==)>(s: State<T>, t: T, status: nat, e: Event<T>): (r: State<T>)
    requires t in s.info
    ensures r.info.Keys == s.info.Keys
  {
    WithStatus(s, t, status).(history := s.history + [e])
  }

  function Withdraw<T(==)>(s: State<T>, t: T): State<T>
    requires t in s.info
  {
    Settle(s, t, COMPLETE, Canceled(t, CanceledCall(s.info[t].call)))
  }

  function CancelTimer<T(==)>(s: State<T>, t: T, clock: nat -> nat): State<T>
    requires t in s.info && Closed(s) && t in s.timers
  {
    WithoutKnown(s.timers, t, s.info);
    Withdraw(if s.timers[0] == t then TaskEvent(TimerTaken(s, t), clock, 0) else TimerTaken(s, t), t)
  }

  /** `task_ready_cancel` of a task in the ready queue q, and the timer event after it. */
  function CancelReady<T(==)>(s: State<T>, q: nat, t: T, clock: nat -> nat): State<T>
    requires t in s.info && Closed(s) && q < |s.ready|
  {
    TaskEvent(Withdraw(ReadyTaken(s, q, t), t), clock, 0)
  }

  /** `svc_tasks_cancel`. */
  function Cancel<T(==)>(s: State<T>, t: T, clock: nat -> nat): (State<T>, int)
    requires t in s.info && Closed(s)
  {
    var q := QueueOf(s.info[t].prio, |s.ready|);
    if t in s.timers then (CancelTimer(s, t, clock), EOK)
    else if Masked(s.info[t].status) == COMPLETE then (s, if IsActive(s.info[t].status) then E_BUSY else EOK)
    else if t in s.ready[q] then (CancelReady(s, q, t, clock), EOK)
    else (s, E_BUSY)  // the assertion of task_ready_cancel fails
  }

  /** `svc_tasks_service_task`, up to the call of the task's function. */
  function Run<T(==)>(s: State<T>, q: nat): (r: State<T>)
    requires q < |s.ready| && Closed(s)
    ensures r.info.Keys == s.info.Keys
  {
    if s.ready[q] == [] then s
    else
      var t := s.ready[q][0];
      assert AllKnown(s.ready[q], s.info);
      Settle(s.(ready := s.ready[q := s.ready[q][1..]], readyCount := s.readyCount - 1), t, ACTIVE_BIT, Ran(t, s.info[t].call))
  }

  /** `svc_tasks_complete`. */
  function Complete<T(==)>(s: State<T>, t: T): (r: State<T>)
    requires t in s.info
    ensures r.info.Keys == s.info.Keys
  {
    var status := s.info[t].status;
    WithStatus(s, t, if IsActive(status) then status - ACTIVE_BIT else status)
  }

  /** The one-shot timer expires: it is no longer set, and its event is signalled. */
  function Fire<T>(s: State<T>): State<T> {
    s.(armed := None, pending := true)
  }

  function HandleEvent<T(==)>(s: State<T>, clock: nat -> nat): State<T>
    requires Closed(s)
  {
    TaskEvent(s.(pending := false), clock, 0)
  }

  lemma WithoutKnown<T>(list: seq<T>, t: T, info: map<T, Info>)
    requires AllKnown(list, info)
    ensures AllKnown(Without(list, t), info)
  {
    WithoutMembers(list, t);
    forall j | 0 <= j < |Without(list, t)| ensures Without(list, t)[j] in info {
      assert Without(list, t)[j] in list;
    }
  }

  // ----- Runs

  datatype Op<T> =
    | DoSchedule(task: T, call: Call, prio: nat, ticks: nat)
    | DoCancel(task: T)
    | DoRun(queue: nat)
    | DoComplete(task: T)
    | DoFire
    | DoHandleEvent

  predicate Enabled<T(==)>(s: State<T>, op: Op<T>) {
    match op
    case DoSchedule(t, _, _, _) => t in s.info
    case DoCancel(t) => t in s.info
    case DoRun(q) => q < |s.ready|
    case DoComplete(t) => t in s.info
    case DoFire => s.armed.Some?
    case DoHandleEvent => true
  }

  function Step<T(==)>(s: State<T>, op: Op<T>, clock: nat -> nat): State<T>
    requires Closed(s) && Enabled(s, op)
  {
    match op
    case DoSchedule(t, call, prio, ticks) => Schedule(s, t, call, prio, ticks, clock).0
    case DoCancel(t) => Cancel(s, t, clock).0
    case DoRun(q) => Run(s, q)
    case DoComplete(t) => Complete(s, t)
    case DoFire => Fire(s)
    case DoHandleEvent => HandleEvent(s, clock)
  }
}
