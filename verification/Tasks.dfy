/**
 The task scheduler of src/svc/svc_tasks.c on its intrusive lists: each method, between
 locking and unlocking the mutex, does what the step of the state machine says.
 */
module Tasks {
  import opened Common
  import opened Lists
  import opened TaskMachine
  import opened TaskInvariants
  import opened TaskTiming

  /** The fields of a task beside its link. */
  datatype TaskData = TaskData(status: nat, call: Call, prio: nat, ticks: nat)

  type Task = Node<TaskData>

  ghost const NO_CLOCK: nat -> nat := (i: nat) => 0  // for the calls that do not read the clock

  method EmptyLists(n: nat) returns (lists: seq<Linked<TaskData>>)
    ensures |lists| == n && Apart(lists) && Contents(lists) == seq(n, i => [])
    ensures forall i :: 0 <= i < n ==> fresh(lists[i])
  {
    lists := [];
    while |lists| < n
      invariant |lists| <= n && Apart(lists)
      invariant forall i :: 0 <= i < |lists| ==> fresh(lists[i]) && lists[i].nodes == []
    {
      var list := new Linked<TaskData>();
      lists := lists + [list];
    }
  }

  /** The quantifier keeps proofs from taking the invariants apart where they only hand them on. */
  ghost predicate Sound(s: State<Task>) {
    exists r :: r == s && Inv(r) && Closed(r)
  }

  /** The step of the machine for a call that is possible. */
  ghost function Next(s: State<Task>, op: Op<Task>, clock: nat -> nat): State<Task> {
    if Closed(s) && Enabled(s, op) then Step(s, op, clock) else s
  }

  lemma SoundStep(s: State<Task>, op: Op<Task>, clock: nat -> nat)
    requires Sound(s) && Enabled(s, op)
    ensures Closed(s) && Sound(Next(s, op, clock))
  {
    StepKeeps(s, op, clock);
    InvIsClosed(Step(s, op, clock), multiset{});
    assert Inv(Step(s, op, clock));
  }

  lemma CompleteIsNext(s: State<Task>, t: Task)
    requires Sound(s) && t in s.info
    ensures Next(s, DoComplete(t), NO_CLOCK)
            == WithStatus(s, t, if IsActive(s.info[t].status) then s.info[t].status - ACTIVE_BIT else s.info[t].status)
  {
    assert Closed(s);
  }

  ghost function ReadyPopped(s: State<Task>, q: nat): State<Task>
    requires q < |s.ready| && s.ready[q] != []
  {
    s.(ready := s.ready[q := s.ready[q][1..]], readyCount := s.readyCount - 1)
  }

  lemma RunIsNext(s: State<Task>, q: nat)
    requires Sound(s) && q < |s.ready|
    ensures s.ready[q] == [] ==> Next(s, DoRun(q), NO_CLOCK) == s
    ensures s.ready[q] != [] ==>
      var t := s.ready[q][0];
      t in s.info && Next(s, DoRun(q), NO_CLOCK) == Settle(ReadyPopped(s, q), t, ACTIVE_BIT, Ran(t, s.info[t].call))
  {
    assert Closed(s) && AllKnown(s.ready[q], s.info);
  }

  /** The two cases of `svc_tasks_add`. */
  lemma AddCases(s: State<Task>, t: Task, call: Call, prio: nat)
    requires Sound(s) && t in s.info && |s.ready| > 0
    ensures Sound(Add(s, t, call, prio).0)
    ensures Masked(s.info[t].status) == QUEUED ==> Add(s, t, call, prio) == (s, E_BUSY)
    ensures Masked(s.info[t].status) != QUEUED ==>
      s.info[t].status != QUEUED && Add(s, t, call, prio) == (ToReady(Accept(s, t, call, prio, 0, 0), t), EOK)
  {
    StatusOf(s, t);
    SoundStep(s, DoSchedule(t, call, prio, 0), NO_CLOCK);
  }

  /** The three cases of `svc_tasks_schedule`. */
  lemma ScheduleCases(s: State<Task>, t: Task, call: Call, prio: nat, ticks: nat, clock: nat -> nat)
    requires Sound(s) && t in s.info
    ensures var r := Next(s, DoSchedule(t, call, prio, ticks), clock);
            && Sound(r) && |s.ready| > 0
            && (if Clamp(ticks) == 0 then r == Add(s, t, call, prio).0
                else if Masked(s.info[t].status) == QUEUED then r == s
                else s.info[t].status != QUEUED)
  {
    StatusOf(s, t);
    SoundStep(s, DoSchedule(t, call, prio, ticks), clock);
  }

  lemma NextIsDelay(s: State<Task>, t: Task, call: Call, prio: nat, ticks: nat, clock: nat -> nat)
    requires Sound(s) && Closed(s) && t in s.info && Masked(s.info[t].status) != QUEUED && Clamp(ticks) != 0
    ensures Next(s, DoSchedule(t, call, prio, ticks), clock) == Delay(s, t, call, prio, Clamp(ticks), clock)
  {
  }

  lemma NotWaiting(s: State<Task>, t: Task)
    requires Sound(s) && t in s.info && Masked(s.info[t].status) != QUEUED
    ensures t !in s.timers
  {
    StatusOf(s, t);
    NotListed(s, multiset{}, t);
  }

  lemma DelayIsNext(s: State<Task>, t: Task, call: Call, prio: nat, ticks: nat, clock: nat -> nat, deadline: nat)
    requires Sound(s) && Closed(s) && t in s.info && Masked(s.info[t].status) != QUEUED && Clamp(ticks) != 0
    requires deadline == clock(0) + Clamp(ticks)
    ensures Next(s, DoSchedule(t, call, prio, ticks), clock)
            == Woken(Placed(s, t, call, prio, deadline), InsertPos(s.timers, s.info, Wrap(deadline)) == 0, Clamp(ticks), clock)
  {
    NextIsDelay(s, t, call, prio, ticks, clock);
    NotWaiting(s, t);
    DelayOf(s, t, call, prio, Clamp(ticks), clock, deadline);
  }

  /** The three cases of `svc_tasks_cancel`: a task that is queued and not in the timer list is
      found in the ready queue of its priority. */
  lemma CancelCases(s: State<Task>, t: Task, clock: nat -> nat, q: nat) returns (r: State<Task>)
    requires Sound(s) && t in s.info && |s.ready| > 0 && q == QueueOf(s.info[t].prio, |s.ready|)
    ensures r == Next(s, DoCancel(t), clock) && Sound(r) && Closed(s)
    ensures t in s.timers ==> r == CancelTimer(s, t, clock)
    ensures t !in s.timers && Masked(s.info[t].status) == COMPLETE ==> r == s
    ensures t !in s.timers && Masked(s.info[t].status) != COMPLETE ==> t in s.ready[q] && r == CancelReady(s, q, t, clock)
  {
    r := Next(s, DoCancel(t), clock);
    SoundStep(s, DoCancel(t), clock);
    StatusOf(s, t);
    if t !in s.timers && s.info[t].status == QUEUED {
      var q' := QueuedInItsQueue(s, t);
    }
  }

  lemma EventKeepsInfo(s: State<Task>, clock: nat -> nat, i: nat)
    ensures EventOf(s, clock, i).info == s.info
  {
  }

  lemma CancelTimerOf(s: State<Task>, t: Task, clock: nat -> nat)
    requires t in s.info && Closed(s) && t in s.timers
    ensures var r := if s.timers[0] == t then EventOf(TimerTaken(s, t), clock, 0) else TimerTaken(s, t);
            t in r.info && CancelTimer(s, t, clock) == Withdraw(r, t)
  {
    WithoutKnown(s.timers, t, s.info);
  }

  lemma CancelReadyOf(s: State<Task>, q: nat, t: Task, clock: nat -> nat)
    requires t in s.info && Closed(s) && q < |s.ready|
    ensures CancelReady(s, q, t, clock) == EventOf(Withdraw(ReadyTaken(s, q, t), t), clock, 0)
  {
  }

  lemma InitialIsSound(s: State<Task>)
    requires Initial(s)
    ensures Sound(s)
  {
    InitialIsGood(s, 0);
    assert Inv(s);
  }

  /** The state a family of lists represents, the first of them holding the timers. */
  ghost function StateOf(c: seq<seq<Task>>, info: map<Task, Info>, listCount: int, readyCount: int, armed: Option<nat>,
                         pending: bool, history: seq<Event<Task>>): State<Task>
    requires c != []
  {
    State(c[0], c[1..], info, listCount, readyCount, armed, pending, history)
  }

  lemma WrapMinus(a: int, b: int)
    ensures Wrap(a - Wrap(b)) == Wrap(a - b)
  {
  }

  /** What is recorded of a task in no list does not matter to the search. */
  lemma {:induction false} SearchElsewhere(timers: seq<Task>, info: map<Task, Info>, t: Task, i: Info, ticks: nat)
    requires AllKnown(timers, info) && t !in timers
    ensures AllKnown(timers, info[t := i]) && InsertPos(timers, info[t := i], ticks) == InsertPos(timers, info, ticks)
  {
    if timers != [] {
      SearchElsewhere(timers[1..], info, t, i, ticks);
    }
  }

  lemma AcceptElsewhere(s: State<Task>, t: Task, call: Call, prio: nat, deadline: nat)
    requires Closed(s) && t in s.info && t !in s.timers
    ensures var a := Accept(s, t, call, prio, Wrap(deadline), deadline);
            && AllKnown(a.timers, a.info)
            && InsertPos(a.timers, a.info, Wrap(deadline)) == InsertPos(s.timers, s.info, Wrap(deadline))
            && Placed(s, t, call, prio, deadline) == TimerInserted(a, InsertPos(a.timers, a.info, Wrap(deadline)), t)
  {
    var a := Accept(s, t, call, prio, Wrap(deadline), deadline);
    SearchElsewhere(s.timers, s.info, t, a.info[t], Wrap(deadline));
  }

  /** The timer event of a state in which it is possible. */
  ghost function EventOf(s: State<Task>, clock: nat -> nat, i: nat): State<Task> {
    if |s.ready| > 0 && AllKnown(s.timers, s.info) then TaskEvent(s, clock, i) else s
  }

  /** The end of `svc_tasks_schedule`, after the task went to its place, the first or another. */
  ghost function Woken(r: State<Task>, first: bool, delay: nat, clock: nat -> nat): State<Task> {
    if first then SetTimer(r, clock(0), delay) else if r.armed == None then EventOf(r, clock, 1) else r
  }

  lemma DelayOf(s: State<Task>, t: Task, call: Call, prio: nat, delay: nat, clock: nat -> nat, deadline: nat)
    requires t in s.info && Closed(s) && t !in s.timers && deadline == clock(0) + delay
    ensures Delay(s, t, call, prio, delay, clock)
            == Woken(Placed(s, t, call, prio, deadline), InsertPos(s.timers, s.info, Wrap(deadline)) == 0, delay, clock)
  {
  }

  lemma WrapPlus(a: int, b: int)
    ensures Wrap(a + Wrap(b)) == Wrap(b + a)
  {
  }

  lemma EventTurn(s: State<Task>, clock: nat -> nat, i: nat)
    requires |s.ready| > 0 && AllKnown(s.timers, s.info) && s.timers != [] && HeadDue(s, clock(i))
    ensures AllKnown(s.timers[1..], s.info)
    ensures TaskEvent(s, clock, i) == TaskEvent(ReleaseHead(s), clock, i + 1)
  {
  }

  lemma SameState(a: State<Task>, b: State<Task>)
    requires a.timers == b.timers
    requires a.ready == b.ready
    requires a.info == b.info
    requires a.listCount == b.listCount && a.readyCount == b.readyCount
    requires a.armed == b.armed && a.pending == b.pending
    requires a.history == b.history
    ensures a == b
  {
  }

  lemma ToReadyOf(c: seq<seq<Task>>, s: State<Task>, t: Task, q: nat, r: State<Task>)
    requires |c| > 1 && s.timers == c[0] && s.ready == c[1..]
    requires t in s.info && q == QueueOf(s.info[t].prio, |c| - 1)
    requires r.timers == s.timers
    requires r.ready == c[q + 1 := c[q + 1] + [t]][1..]
    requires r.info == s.info
    requires r.listCount == s.listCount && r.readyCount == s.readyCount + 1
    requires r.armed == s.armed && r.pending == s.pending
    requires r.history == s.history
    ensures r == ToReady(s, t)
  {
    assert c[q + 1 := c[q + 1] + [t]][1..] == c[1..][q := c[q + 1] + [t]];
  }

  lemma OneReplaced<X>(c: seq<X>, j: nat, x: X)
    requires 0 < j < |c|
    ensures c[j := x][1..] == c[1..][j - 1 := x]
  {
  }

  lemma DistinctWithout(nodes: seq<Task>, t: Task)
    requires Distinct(nodes)
    ensures forall k: nat :: k < |nodes| && nodes[k] == t ==> Without(nodes, t) == nodes[..k] + nodes[k + 1..]
  {
    forall k: nat | k < |nodes| && nodes[k] == t ensures Without(nodes, t) == nodes[..k] + nodes[k + 1..] {
      WithoutAt(nodes, k);
    }
  }

  lemma FirstReplaced<X>(c: seq<X>, x: X)
    requires c != []
    ensures c[0 := x][1..] == c[1..]
  {
  }

  /** What is recorded of the tasks: their fields, and true deadline and order of scheduling. */
  ghost function Infos(due: map<Task, (nat, nat)>): map<Task, Info>
    reads due.Keys`data
  {
    map t | t in due :: Info(t.data.status, t.data.call, t.data.prio, t.data.ticks, due[t].0, due[t].1)
  }

  class Scheduler {
    const lists: seq<Linked<TaskData>>  // the timer list, and behind it the ready queues
    var listCount: int
    var readyCount: int
    var armed: Option<nat>
    var pending: bool
    ghost var due: map<Task, (nat, nat)>  // of each known task: true deadline, order of scheduling
    ghost var history: seq<Event<Task>>

    /** The state of the machine that the lists and tasks represent. */
    ghost function View(): State<Task>
      requires lists != []
      reads this, lists, due.Keys`data
    {
      StateOf(Contents(lists), Infos(due), listCount, readyCount, armed, pending, history)
    }

    ghost predicate Valid()
      reads this, lists, due.Keys`data, Objects(lists)`next
    {
      |lists| > 1 && Apart(lists) && Sound(View())
    }

    /** Statically empty lists; the tasks were initialized by `svc_tasks_init_task`. */
    constructor (pool: nat, tasks: set<Task>)
      requires pool > 0 && forall t :: t in tasks ==> t.data.status == COMPLETE && t.data.prio < 0x100
      ensures Valid() && due.Keys == tasks && |lists| == pool + 1 && history == []
      ensures forall i :: 0 <= i < |lists| ==> fresh(lists[i])
    {
      var all := EmptyLists(pool + 1);
      lists := all;
      listCount, readyCount, armed, pending := 0, 0, None, false;
      due, history := map t | t in tasks :: (0, 0), [];
      new;
      InitialIsSound(View());
    }

    method AddToReady(q: nat, t: Task)
      requires Apart(lists) && Loose(lists, t) && q + 1 < |lists|
      modifies this`readyCount, lists, (Objects(lists) + {t})`next
      ensures Apart(lists) && Infos(due) == old(Infos(due)) && readyCount == old(readyCount) + 1
      ensures Contents(lists) == old(Contents(lists)[q + 1 := lists[q + 1].nodes + [t]])
      ensures Objects(lists) <= old(Objects(lists)) + {t}
    {
      readyCount := readyCount + 1;
      AddTailOf(lists, q + 1, lists[q + 1], t);
      assert forall x :: x in due ==> x.data == old(x.data);
    }

    /** `task_to_ready`. */
    method ToReady(t: Task)
      requires Apart(lists) && |lists| > 1 && t in due && Loose(lists, t)
      modifies this`readyCount, lists, (Objects(lists) + {t})`next
      ensures Apart(lists) && View() == TaskMachine.ToReady(old(View()), t)
      ensures Objects(lists) <= old(Objects(lists)) + {t}
    {
      ghost var c, s := Contents(lists), View();
      var q := QueueOf(t.data.prio, |lists| - 1);
      AddToReady(q, t);
      ToReadyOf(c, s, t, q, View());
    }

    method TakeTimerHead()
      requires Apart(lists) && lists != [] && lists[0].nodes != []
      modifies this`listCount, lists[0]
      ensures Apart(lists) && Infos(due) == old(Infos(due)) && listCount == old(listCount) - 1
      ensures Contents(lists) == old(Contents(lists)[0 := lists[0].nodes[1..]])
      ensures Objects(lists) <= old(Objects(lists)) && Loose(lists, old(lists[0].nodes[0]))
    {
      listCount := listCount - 1;
      RemoveHeadOf(lists, 0, lists[0]);
      assert forall x :: x in due ==> x.data == old(x.data);
    }

    method PopTimer()
      requires Apart(lists) && lists != [] && lists[0].nodes != []
      modifies this`listCount, lists[0]
      ensures Apart(lists) && View() == HeadPopped(old(View()))
      ensures Objects(lists) <= old(Objects(lists)) && Loose(lists, old(lists[0].nodes[0]))
    {
      ghost var c, s := Contents(lists), View();
      TakeTimerHead();
      FirstReplaced(c, c[0][1..]);
      SameState(View(), HeadPopped(s));
    }

    /** The head of the timer list goes to the ready queue of its priority. */
    method ReleaseHead(t: Task)
      requires Apart(lists) && |lists| > 1 && t in due && lists[0].nodes != [] && lists[0].nodes[0] == t
      modifies this`listCount, this`readyCount, lists, Objects(lists)`next
      ensures Apart(lists) && Objects(lists) <= old(Objects(lists))
      ensures lists[0].nodes == old(lists[0].nodes[1..]) && Infos(due) == old(Infos(due))
      ensures View() == TaskMachine.ReleaseHead(old(View()))
    {
      PopTimer();
      ToReady(t);
    }

    method SetTimer(now: nat, ticks: nat)
      requires Apart(lists) && lists != []
      modifies this`armed
      ensures Apart(lists) && Objects(lists) == old(Objects(lists))
      ensures View() == TaskMachine.SetTimer(old(View()), now, ticks)
    {
      armed := Some(now + ticks);
    }

    /** The timer is set for the head of the timer list, which is not due at the i-th reading. */
    method Rearm(start: Task, clock: nat -> nat, i: nat)
      requires Apart(lists) && |lists| > 1 && AllKnown(lists[0].nodes, Infos(due))
      requires start == lists[0].head && start in due && View().timers != [] && !HeadDue(View(), clock(i))
      modifies this`armed
      ensures Apart(lists) && Objects(lists) == old(Objects(lists))
      ensures View() == TaskMachine.TaskEvent(old(View()), clock, i)
    {
      HeadInView();
      WrapMinus(start.data.ticks, clock(i));
      SetTimer(clock(i), Wrap(start.data.ticks - Wrap(clock(i))));
    }

    lemma HeadInView()
      requires Apart(lists) && lists != [] && AllKnown(lists[0].nodes, Infos(due))
      ensures lists[0].nodes == View().timers && Infos(due) == View().info
      ensures lists[0].head == null <==> View().timers == []
      ensures var t := lists[0].head; t != null ==> t == View().timers[0] && t in due && View().info[t].ticks == t.data.ticks
    {
    }

    /** `svc_tasks_task_event`. */
    method TaskEvent(clock: nat -> nat, first: nat)
      requires Apart(lists) && |lists| > 1 && Objects(lists) <= due.Keys
      modifies this`listCount, this`readyCount, this`armed, lists, Objects(lists)`next
      ensures Apart(lists) && Objects(lists) <= old(Objects(lists))
      ensures View() == EventOf(old(View()), clock, first)
    {
      var start := lists[0].head;
      assert AllKnown(lists[0].nodes, Infos(due));
      HeadInView();
      if start != null {
        var now := Wrap(clock(first));
        if Diff(start.data.ticks, now) > 0 {
          Rearm(start, clock, first);
        } else {
          ReleaseDue(clock, first);
        }
      }
    }

    /** The loop of `svc_tasks_task_event`. */
    method ReleaseDue(clock: nat -> nat, first: nat)
      requires Apart(lists) && |lists| > 1 && AllKnown(lists[0].nodes, Infos(due))
      requires lists[0].nodes != [] && HeadDue(View(), clock(first))
      modifies this`listCount, this`readyCount, this`armed, lists, Objects(lists)`next
      ensures Apart(lists) && Objects(lists) <= old(Objects(lists))
      ensures View() == TaskMachine.TaskEvent(old(View()), clock, first)
    {
      ghost var s := View();
      var i, start, expired := first, lists[0].head, true;
      HeadInView();
      while expired
        invariant i >= first && start == lists[0].head
        invariant Apart(lists) && Objects(lists) <= old(Objects(lists)) && AllKnown(lists[0].nodes, Infos(due))
        invariant expired <==> View().timers != [] && HeadDue(View(), clock(i))
        invariant TaskMachine.TaskEvent(View(), clock, i) == TaskMachine.TaskEvent(s, clock, first)
        decreases |lists[0].nodes|
      {
        HeadInView();
        EventTurn(View(), clock, i);
        ReleaseHead(start);
        HeadInView();
        i := i + 1;
        start := lists[0].head;
        var now := Wrap(clock(i));
        expired := start != null && Diff(start.data.ticks, now) <= 0;
      }
      HeadInView();
      if start != null {
        Rearm(start, clock, i);
      }
    }

    /** The fields of a task that is in no list are set for a new call. */
    method Accept(t: Task, call: Call, prio: nat, ticks: nat, ghost deadline: nat)
      requires Apart(lists) && lists != [] && t in due
      modifies t`data, this`due, this`history
      ensures Apart(lists) && Objects(lists) == old(Objects(lists)) && Contents(lists) == old(Contents(lists))
      ensures View() == TaskMachine.Accept(old(View()), t, call, prio, ticks, deadline)
      ensures due.Keys == old(due.Keys)
    {
      ghost var s := View();
      t.data := TaskData(QUEUED, call, prio % 0x100, ticks);
      due := due[t := (deadline, |history|)];
      history := history + [Accepted(t, call)];
      assert Infos(due) == s.info[t := Info(QUEUED, call, prio % 0x100, ticks, deadline, |s.history|)];
    }

    /** The task gets its outcome, and its callback is called. */
    method Settle(t: Task, status: nat, ghost e: Event<Task>)
      requires Apart(lists) && lists != [] && t in due
      modifies t`data, this`history
      ensures Apart(lists) && Objects(lists) == old(Objects(lists)) && Contents(lists) == old(Contents(lists))
      ensures View() == TaskMachine.Settle(old(View()), t, status, e)
    {
      ghost var s := View();
      t.data := t.data.(status := status);
      history := history + [e];
      assert Infos(due) == s.info[t := s.info[t].(status := status)];
    }

    /** The search loop of `svc_tasks_schedule`. */
    method FindPlace(ticks: nat) returns (previous: Node?<TaskData>, ghost p: nat)
      requires Apart(lists) && lists != [] && AllKnown(lists[0].nodes, Infos(due))
      ensures p == InsertPos(lists[0].nodes, Infos(due), ticks)
      ensures previous == NodeAt(lists[0].nodes, p - 1)
      ensures Apart(lists) && View() == old(View()) && Objects(lists) == old(Objects(lists))
    {
      ghost var timers := lists[0].nodes;
      previous, p := null, 0;
      var start := lists[0].head;
      assert timers[0..] == timers;
      while start != null && Diff(ticks, start.data.ticks) >= 0
        invariant p <= |timers| && start == NodeAt(timers, p) && previous == NodeAt(timers, p - 1)
        invariant InsertPos(timers, Infos(due), ticks) == p + InsertPos(timers[p..], Infos(due), ticks)
        decreases |timers| - p
      {
        assert LinkAt(timers, p) && Infos(due)[start].ticks == start.data.ticks;
        assert timers[p..][0] == start && timers[p..][1..] == timers[p + 1..];
        previous := start;
        start := start.next;
        p := p + 1;
      }
      assert start != null ==> timers[p..][0] == start && Infos(due)[start].ticks == start.data.ticks;
    }

    method LinkTimer(t: Task, previous: Node?<TaskData>, ghost p: nat)
      requires Apart(lists) && lists != [] && Loose(lists, t) && t in due && Objects(lists) <= due.Keys
      requires p <= |lists[0].nodes| && previous == NodeAt(lists[0].nodes, p - 1)
      modifies lists[0], due.Keys`next
      ensures Apart(lists) && Infos(due) == old(Infos(due)) && Objects(lists) <= due.Keys
      ensures Contents(lists) == old(Contents(lists)[0 := Inserted(lists[0].nodes, p, t)])
    {
      ghost var nodes := lists[0].nodes;
      if previous == null {
        AddHeadOf(lists, 0, lists[0], t);
        assert Inserted(nodes, 0, t) == [t] + nodes;
      } else {
        AddNextOf(lists, 0, lists[0], previous, t, p - 1);
      }
      assert forall x :: x in due ==> x.data == old(x.data);
    }

    method AddTimer(t: Task, previous: Node?<TaskData>, ghost p: nat)
      requires Apart(lists) && lists != [] && Loose(lists, t) && t in due && Objects(lists) <= due.Keys
      requires p <= |lists[0].nodes| && previous == NodeAt(lists[0].nodes, p - 1)
      modifies this`listCount, this`readyCount, lists[0], due.Keys`next
      ensures Apart(lists) && Infos(due) == old(Infos(due)) && Objects(lists) <= due.Keys
      ensures Contents(lists) == old(Contents(lists)[0 := Inserted(lists[0].nodes, p, t)])
      ensures listCount == old(listCount) + 1 && readyCount == old(readyCount)
    {
      LinkTimer(t, previous, p);
      Count(0, 1);
    }

    method InsertTimer(t: Task, previous: Node?<TaskData>, ghost p: nat)
      requires Apart(lists) && lists != [] && Loose(lists, t) && t in due && Objects(lists) <= due.Keys
      requires p <= |lists[0].nodes| && previous == NodeAt(lists[0].nodes, p - 1)
      modifies this`listCount, this`readyCount, lists[0], due.Keys`next
      ensures Apart(lists) && View() == TimerInserted(old(View()), p, t)
      ensures Objects(lists) <= due.Keys
    {
      ghost var c, s := Contents(lists), View();
      AddTimer(t, previous, p);
      FirstReplaced(c, Inserted(c[0], p, t));
      SameState(View(), TimerInserted(s, p, t));
    }

    method Unlink(j: nat, t: Task) returns (found: bool)
      requires Apart(lists) && j < |lists|
      modifies lists[j], Objects(lists)`next
      ensures Apart(lists) && Infos(due) == old(Infos(due)) && found == (t in old(lists[j].nodes))
      ensures Contents(lists) == old(Contents(lists)[j := Without(lists[j].nodes, t)])
      ensures Objects(lists) <= old(Objects(lists)) && (found ==> Loose(lists, t))
    {
      ghost var c := Contents(lists);
      DistinctWithout(c[j], t);
      found := RemoveOf(lists, j, lists[j], t);
      assert forall x :: x in due ==> x.data == old(x.data);
    }

    method Count(j: nat, n: int)
      requires Apart(lists)
      modifies this`listCount, this`readyCount
      ensures Apart(lists) && Contents(lists) == old(Contents(lists)) && Infos(due) == old(Infos(due))
      ensures Objects(lists) == old(Objects(lists))
      ensures listCount == if j == 0 then old(listCount) + n else old(listCount)
      ensures readyCount == if j > 0 then old(readyCount) + n else old(readyCount)
    {
      if j == 0 { listCount := listCount + n; } else { readyCount := readyCount + n; }
    }

    /** The task leaves the j-th list, if it is there, and is no longer counted. */
    method RemoveFrom(j: nat, t: Task) returns (found: bool)
      requires Apart(lists) && j < |lists|
      modifies this`listCount, this`readyCount, lists[j], Objects(lists)`next
      ensures Apart(lists) && Infos(due) == old(Infos(due)) && found == (t in old(lists[j].nodes))
      ensures Contents(lists) == old(Contents(lists)[j := Without(lists[j].nodes, t)])
      ensures Objects(lists) <= old(Objects(lists)) && (found ==> Loose(lists, t))
      ensures listCount == if found && j == 0 then old(listCount) - 1 else old(listCount)
      ensures readyCount == if found && j > 0 then old(readyCount) - 1 else old(readyCount)
    {
      found := Unlink(j, t);
      if found {
        Count(j, -1);
      }
    }

    method RemoveTimer(t: Task) returns (found: bool)
      requires Apart(lists) && lists != []
      modifies this`listCount, this`readyCount, lists[0], Objects(lists)`next
      ensures Apart(lists) && found == (t in old(View()).timers)
      ensures View() == if found then TimerTaken(old(View()), t) else old(View())
      ensures Objects(lists) <= old(Objects(lists)) && (found ==> Loose(lists, t))
    {
      ghost var c, s := Contents(lists), View();
      found := RemoveFrom(0, t);
      FirstReplaced(c, Without(c[0], t));
      SameState(View(), if found then TimerTaken(s, t) else s);
    }

    method RemoveReady(q: nat, t: Task) returns (found: bool)
      requires Apart(lists) && q + 1 < |lists|
      modifies this`listCount, this`readyCount, lists[q + 1], Objects(lists)`next
      ensures Apart(lists) && found == (t in old(View()).ready[q])
      ensures View() == if found then ReadyTaken(old(View()), q, t) else old(View())
      ensures Objects(lists) <= old(Objects(lists)) && (found ==> Loose(lists, t))
    {
      ghost var c, s := Contents(lists), View();
      found := RemoveFrom(q + 1, t);
      OneReplaced(c, q + 1, Without(c[q + 1], t));
      SameState(View(), if found then ReadyTaken(s, q, t) else s);
    }

    lemma Known()
      requires Valid()
      ensures AllKnown(lists[0].nodes, Infos(due)) && Objects(lists) <= due.Keys
    {
      var s := View();
      forall x | x in Objects(lists) ensures x in due {
        var j: nat :| j < |lists| && x in lists[j].nodes;
        assert lists[j].nodes == if j == 0 then s.timers else s.ready[j - 1];
        assert AllKnown(lists[j].nodes, s.info);
      }
    }

    method SetFlags(when: Option<nat>, signalled: bool)
      requires Apart(lists) && lists != []
      modifies this`armed, this`pending
      ensures Apart(lists) && View() == old(View()).(armed := when, pending := signalled)
    {
      armed, pending := when, signalled;
    }

    method SetStatus(t: Task, status: nat)
      requires Apart(lists) && lists != [] && t in due
      modifies t`data
      ensures Apart(lists) && View() == WithStatus(old(View()), t, status)
    {
      ghost var s := View();
      t.data := t.data.(status := status);
      assert Infos(due) == s.info[t := s.info[t].(status := status)];
    }

    // ----- The calls of the scheduler, each a step of the machine

    /** The one-shot timer expires. */
    method Expire()
      requires Valid() && armed.Some?
      modifies this`armed, this`pending
      ensures Valid() && View() == Next(old(View()), DoFire, NO_CLOCK)
    {
      SoundStep(View(), DoFire, NO_CLOCK);
      SetFlags(None, true);
    }

    /** The timer event is handled: `svc_tasks_task_event`. */
    method HandleEvent(clock: nat -> nat)
      requires Valid()
      modifies this`listCount, this`readyCount, this`armed, this`pending, lists, Objects(lists)`next
      ensures Valid() && View() == Next(old(View()), DoHandleEvent, clock)
    {
      Known();
      SoundStep(View(), DoHandleEvent, clock);
      SetFlags(armed, false);
      TaskEvent(clock, 0);
    }

    /** `svc_tasks_complete`. */
    method Complete(t: Task)
      requires Valid() && t in due
      modifies t`data
      ensures Valid() && View() == Next(old(View()), DoComplete(t), NO_CLOCK)
    {
      SoundStep(View(), DoComplete(t), NO_CLOCK);
      CompleteIsNext(View(), t);
      SetStatus(t, if IsActive(t.data.status) then t.data.status - ACTIVE_BIT else t.data.status);
    }

    method TakeReadyHead(q: nat)
      requires Apart(lists) && q + 1 < |lists| && lists[q + 1].nodes != []
      modifies this`listCount, this`readyCount, lists[q + 1]
      ensures Apart(lists) && Infos(due) == old(Infos(due))
      ensures Contents(lists) == old(Contents(lists)[q + 1 := lists[q + 1].nodes[1..]])
      ensures readyCount == old(readyCount) - 1 && listCount == old(listCount)
    {
      RemoveHeadOf(lists, q + 1, lists[q + 1]);
      assert forall x :: x in due ==> x.data == old(x.data);
      Count(q + 1, -1);
    }

    method PopReady(q: nat)
      requires Apart(lists) && q + 1 < |lists| && lists[q + 1].nodes != []
      modifies this`listCount, this`readyCount, lists[q + 1]
      ensures Apart(lists) && View() == ReadyPopped(old(View()), q)
    {
      ghost var c, s := Contents(lists), View();
      TakeReadyHead(q);
      OneReplaced(c, q + 1, c[q + 1][1..]);
      SameState(View(), ReadyPopped(s, q));
    }

    /** `svc_tasks_service_task`, up to the call of the task's function. */
    method ServiceTask(q: nat) returns (call: Option<Call>)
      requires Valid() && q + 1 < |lists|
      modifies this`listCount, this`readyCount, this`history, lists, due.Keys`data
      ensures Valid() && View() == Next(old(View()), DoRun(q), NO_CLOCK)
      ensures call == if old(View()).ready[q] == [] then None else Some(old(View().info[View().ready[q][0]].call))
    {
      call := None;
      SoundStep(View(), DoRun(q), NO_CLOCK);
      RunIsNext(View(), q);
      var start := lists[q + 1].head;
      if start != null {
        call := Some(start.data.call);
        PopReady(q);
        Settle(start, ACTIVE_BIT, Ran(start, start.data.call));
      }
    }

    lemma IdleIsLoose(t: Task)
      requires Valid() && t in due && t.data.status != QUEUED
      ensures Loose(lists, t)
    {
      var s := View();
      NotListed(s, multiset{}, t);
      forall j | 0 <= j < |lists| ensures t !in lists[j].nodes {
        assert lists[j].nodes == if j == 0 then s.timers else s.ready[j - 1];
      }
    }

    /** The part of `svc_tasks_add` for a task that is not queued. */
    method AddIdle(t: Task, call: Call, prio: nat)
      requires Apart(lists) && |lists| > 1 && t in due && Loose(lists, t)
      modifies this`readyCount, this`due, this`history, t`data, lists, (Objects(lists) + {t})`next
      ensures Apart(lists) && due.Keys == old(due.Keys)
      ensures View() == TaskMachine.ToReady(TaskMachine.Accept(old(View()), t, call, prio, 0, 0), t)
    {
      Accept(t, call, prio, 0, 0);
      ToReady(t);
    }

    /** The task goes to its place p in the timer list. */
    method PutTimer(t: Task, ticks: nat, ghost p: nat) returns (first: bool)
      requires Apart(lists) && |lists| > 1 && Loose(lists, t) && t in due && Objects(lists) <= due.Keys
      requires AllKnown(lists[0].nodes, Infos(due)) && p == InsertPos(lists[0].nodes, Infos(due), ticks)
      modifies this`listCount, this`readyCount, lists, due.Keys`next
      ensures Apart(lists) && Objects(lists) <= due.Keys
      ensures View() == TimerInserted(old(View()), p, t) && first == (p == 0)
    {
      var previous, place := FindPlace(ticks);
      InsertTimer(t, previous, p);
      first := previous == null;
    }

    method Place(t: Task, call: Call, prio: nat, ticks: nat, ghost deadline: nat, ghost p: nat) returns (first: bool)
      requires Apart(lists) && |lists| > 1 && t in due && Loose(lists, t) && Objects(lists) <= due.Keys
      requires Closed(View()) && ticks == Wrap(deadline) && p == InsertPos(View().timers, View().info, ticks)
      modifies this`listCount, this`readyCount, this`due, this`history, t`data, lists, due.Keys`next
      ensures Apart(lists) && due.Keys == old(due.Keys) && Objects(lists) <= due.Keys
      ensures View() == Placed(old(View()), t, call, prio, deadline) && first == (p == 0)
    {
      AcceptElsewhere(View(), t, call, prio, deadline);
      Accept(t, call, prio, ticks, deadline);
      HeadInView();
      first := PutTimer(t, ticks, p);
    }

    method Wake(first: bool, delay: nat, clock: nat -> nat)
      requires Apart(lists) && |lists| > 1 && Objects(lists) <= due.Keys
      modifies this`listCount, this`readyCount, this`armed, lists, Objects(lists)`next
      ensures Apart(lists) && View() == Woken(old(View()), first, delay, clock)
    {
      if first {
        SetTimer(clock(0), delay);
      } else if armed.None? {
        TaskEvent(clock, 1);
      }
    }

    /** The part of `svc_tasks_schedule` for a delay and a task that is not queued. */
    method DelayIdle(t: Task, call: Call, prio: nat, delay: nat, clock: nat -> nat, now: nat, ghost deadline: nat)
        returns (ghost r: State<Task>, first: bool)
      requires Apart(lists) && |lists| > 1 && t in due && Loose(lists, t) && Closed(View()) && Objects(lists) <= due.Keys
      requires deadline == now + delay
      modifies this`listCount, this`readyCount, this`armed, this`due, this`history, t`data, lists, due.Keys`next
      ensures Apart(lists) && due.Keys == old(due.Keys)
      ensures r == Placed(old(View()), t, call, prio, deadline)
      ensures first == (InsertPos(old(View()).timers, old(View()).info, Wrap(deadline)) == 0)
      ensures View() == Woken(r, first, delay, clock)
    {
      WrapPlus(delay, now);
      var ticks := Wrap(delay + Wrap(now));
      ghost var p := InsertPos(View().timers, View().info, ticks);
      first := Place(t, call, prio, ticks, deadline, p);
      r := View();
      Wake(first, delay, clock);
    }

    /** `svc_tasks_add`. */
    method Add(t: Task, call: Call, prio: nat) returns (status: int)
      requires Valid() && t in due
      modifies this`readyCount, this`due, this`history, lists, due.Keys
      ensures Valid() && due.Keys == old(due.Keys)
      ensures (View(), status) == TaskMachine.Add(old(View()), t, call, prio)
    {
      AddCases(View(), t, call, prio);
      if Masked(t.data.status) == QUEUED {
        status := E_BUSY;
      } else {
        IdleIsLoose(t);
        Known();
        AddIdle(t, call, prio);
        status := EOK;
      }
    }

    /** `svc_tasks_schedule`. */
    method Schedule(t: Task, call: Call, prio: nat, ticks: nat, clock: nat -> nat) returns (status: int)
      requires Valid() && t in due
      modifies this`listCount, this`readyCount, this`armed, this`due, this`history, lists, due.Keys
      ensures Valid() && due.Keys == old(due.Keys)
      ensures View() == Next(old(View()), DoSchedule(t, call, prio, ticks), clock)
      ensures status == if Masked(old(t.data.status)) == QUEUED then E_BUSY else EOK
    {
      var delay := Clamp(ticks);
      ScheduleCases(View(), t, call, prio, ticks, clock);
      if delay == 0 {
        status := Add(t, call, prio);
      } else if Masked(t.data.status) == QUEUED {
        status := E_BUSY;
      } else {
        ScheduleDelayed(t, call, prio, ticks, clock);
        status := EOK;
      }
    }

    method ScheduleDelayed(t: Task, call: Call, prio: nat, ticks: nat, clock: nat -> nat)
      requires Valid() && t in due && t.data.status != QUEUED && Masked(t.data.status) != QUEUED && Clamp(ticks) != 0
      modifies this`listCount, this`readyCount, this`armed, this`due, this`history, lists, due.Keys
      ensures Apart(lists) && due.Keys == old(due.Keys)
      ensures View() == Next(old(View()), DoSchedule(t, call, prio, ticks), clock)
    {
      var now := clock(0);
      ghost var deadline := now + Clamp(ticks);
      IdleIsLoose(t);
      Known();
      DelayIsNext(View(), t, call, prio, ticks, clock, deadline);
      ghost var r, first := DelayIdle(t, call, prio, Clamp(ticks), clock, now, deadline);
    }

    method Withdraw(t: Task)
      requires Apart(lists) && lists != [] && t in due
      modifies t`data, this`history
      ensures Apart(lists) && Objects(lists) == old(Objects(lists))
      ensures View() == TaskMachine.Withdraw(old(View()), t)
    {
      Settle(t, COMPLETE, Canceled(t, CanceledCall(t.data.call)));
    }

    /** A task was taken from the timer list; `first` says that it was the head. */
    method EndWaiting(t: Task, first: bool, clock: nat -> nat) returns (ghost r: State<Task>)
      requires Apart(lists) && |lists| > 1 && t in due && Objects(lists) <= due.Keys
      modifies this`listCount, this`readyCount, this`armed, this`history, t`data, lists, Objects(lists)`next
      ensures Apart(lists) && r == (if first then EventOf(old(View()), clock, 0) else old(View()))
      ensures t in r.info && View() == TaskMachine.Withdraw(r, t)
    {
      EventKeepsInfo(View(), clock, 0);
      if first {
        TaskEvent(clock, 0);
      }
      r := View();
      Withdraw(t);
    }

    /** A task was taken from its ready queue. */
    method EndReady(t: Task, clock: nat -> nat) returns (ghost r: State<Task>)
      requires Apart(lists) && |lists| > 1 && t in due && Objects(lists) <= due.Keys
      modifies this`listCount, this`readyCount, this`armed, this`history, t`data, lists, Objects(lists)`next
      ensures Apart(lists) && r == TaskMachine.Withdraw(old(View()), t) && View() == EventOf(r, clock, 0)
    {
      Withdraw(t);
      r := View();
      TaskEvent(clock, 0);
    }

    method CancelWaiting(t: Task, first: bool, clock: nat -> nat, ghost s: State<Task>)
      requires Apart(lists) && |lists| > 1 && t in due && Objects(lists) <= due.Keys
      requires t in s.info && Closed(s) && t in s.timers && first == (s.timers[0] == t) && View() == TimerTaken(s, t)
      modifies this`listCount, this`readyCount, this`armed, this`history, t`data, lists, Objects(lists)`next
      ensures Apart(lists) && View() == CancelTimer(s, t, clock)
    {
      CancelTimerOf(s, t, clock);
      ghost var r := EndWaiting(t, first, clock);
    }

    /** `task_ready_cancel`: its assertion that the task is in the queue holds. */
    method CancelReady(q: nat, t: Task, clock: nat -> nat, ghost s: State<Task>)
      requires Apart(lists) && |lists| > 1 && t in due && Objects(lists) <= due.Keys && q + 1 < |lists|
      requires s == View() && Closed(s) && t in s.ready[q]
      modifies this`listCount, this`readyCount, this`armed, this`history, t`data, lists, Objects(lists)`next
      ensures Apart(lists) && View() == TaskMachine.CancelReady(s, q, t, clock)
    {
      CancelReadyOf(s, q, t, clock);
      var found := RemoveReady(q, t);
      assert found;
      ghost var r := EndReady(t, clock);
    }

    /** The cases of `svc_tasks_cancel`; r is the state after it. */
    method CancelAny(t: Task, clock: nat -> nat, ghost s: State<Task>, ghost r: State<Task>, q: nat) returns (status: int)
      requires Apart(lists) && |lists| > 1 && t in due && Objects(lists) <= due.Keys && q + 1 < |lists|
      requires s == View() && Closed(s) && AllKnown(lists[0].nodes, Infos(due))
      requires t in s.timers ==> r == CancelTimer(s, t, clock)
      requires t !in s.timers && Masked(t.data.status) == COMPLETE ==> r == s
      requires t !in s.timers && Masked(t.data.status) != COMPLETE ==>
                 t in s.ready[q] && r == TaskMachine.CancelReady(s, q, t, clock)
      requires Masked(t.data.status) != COMPLETE ==> !IsActive(t.data.status)
      modifies this`listCount, this`readyCount, this`armed, this`history, t`data, lists, Objects(lists)`next
      ensures Apart(lists) && View() == r
      ensures status == if t !in s.timers && IsActive(s.info[t].status) then E_BUSY else EOK
    {
      HeadInView();
      var first := lists[0].head == t;
      var waiting := RemoveTimer(t);
      if waiting {
        CancelWaiting(t, first, clock, s);
        return EOK;
      } else if Masked(t.data.status) == COMPLETE {
        return if IsActive(t.data.status) then E_BUSY else EOK;
      } else {
        CancelReady(q, t, clock, s);
        return EOK;
      }
    }

    /** `svc_tasks_cancel`. */
    method Cancel(t: Task, clock: nat -> nat) returns (status: int)
      requires Valid() && t in due
      modifies this`listCount, this`readyCount, this`armed, this`history, t`data, lists, Objects(lists)`next
      ensures Valid() && View() == Next(old(View()), DoCancel(t), clock)
      ensures status == if t !in old(View()).timers && IsActive(old(t.data.status)) then E_BUSY else EOK
    {
      var q := QueueOf(t.data.prio, |lists| - 1);
      Known();
      StatusOf(View(), t);
      ghost var r := CancelCases(View(), t, clock, q);
      status := CancelAny(t, clock, View(), r, q);
    }
  }
}
