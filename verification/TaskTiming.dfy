/**
 Deadlines of the task scheduler in true time, although the code compares wrapped 32-bit
 ticks: the order of the timer list, what a timer event releases, and that no wakeup is lost.
 */
module TaskTiming {
  import opened Common
  import opened TaskMachine
  import opened TaskInvariants

  // ----- The timer list in true time

  predicate Before(a: Info, b: Info) {
    a.deadline < b.deadline || (a.deadline == b.deadline && a.stamp < b.stamp)
  }

  /** Sorted by true deadline, and by order of scheduling among equal deadlines. */
  ghost predicate Sorted<T>(info: map<T, Info>, timers: seq<T>)
    requires AllKnown(timers, info)
  {
    forall i, j :: 0 <= i < j < |timers| ==> InOrder(info, timers, i, j)
  }

  predicate InOrder<T(==)>(info: map<T, Info>, timers: seq<T>, i: nat, j: nat)
    requires AllKnown(timers, info) && i < |timers| && j < |timers|
  {
    Before(info[timers[i]], info[timers[j]])
  }

  /** The deadline was set before the time `now`, with a delay the code allows. */
  ghost predicate NotFar<T>(info: map<T, Info>, timers: seq<T>, now: nat)
    requires AllKnown(timers, info)
  {
    forall i :: 0 <= i < |timers| ==> info[timers[i]].deadline < now + MAX_DELAY
  }

  ghost predicate Stamped<T>(info: map<T, Info>, timers: seq<T>, n: nat)
    requires AllKnown(timers, info)
  {
    forall i :: 0 <= i < |timers| ==> info[timers[i]].stamp < n
  }

  /** While tasks wait, a timer event is pending or the timer expires in time for the first. */
  ghost predicate Wakeup<T>(s: State<T>)
    requires AllKnown(s.timers, s.info)
  {
    s.timers != [] ==> s.pending || (s.armed.Some? && s.armed.value <= s.info[s.timers[0]].deadline)
  }

  ghost predicate ListTimely<T>(info: map<T, Info>, timers: seq<T>, now: nat, n: nat) {
    TimersOk(info, timers) && Sorted(info, timers) && NotFar(info, timers, now) && Stamped(info, timers, n)
  }

  ghost predicate Timely<T>(s: State<T>, now: nat) {
    ListTimely(s.info, s.timers, now, |s.history|)
  }

  // ----- Timer events

  /** How many heads of the timer list are due at the successive readings of the clock. */
  function DueCount<T(==)>(timers: seq<T>, info: map<T, Info>, clock: nat -> nat, i: nat): (k: nat)
    requires AllKnown(timers, info)
    ensures k <= |timers|
    ensures forall j :: 0 <= j < k ==> info[timers[j]].deadline <= clock(i + j)
    ensures k < |timers| ==> info[timers[k]].deadline > clock(i + k)
  {
    if timers == [] || info[timers[0]].deadline > clock(i) then 0
    else
      var k := DueCount(timers[1..], info, clock, i + 1);
      assert forall j :: 1 <= j < k + 1 ==> timers[j] == timers[1..][j - 1];
      1 + k
  }

  /** The tasks of a list that belong to a queue, in their order. */
  function ForQueue<T(==)>(list: seq<T>, info: map<T, Info>, q: nat, pool: nat): seq<T>
    requires AllKnown(list, info) && pool > 0
  {
    if list == [] then []
    else (if QueueOf(info[list[0]].prio, pool) == q then [list[0]] else []) + ForQueue(list[1..], info, q, pool)
  }

  /** All readings lie in the window in which wrapped ticks tell the truth about the head. */
  ghost predicate ClockInWindow<T>(s: State<T>, clock: nat -> nat, now: nat, end: nat)
    requires AllKnown(s.timers, s.info)
  {
    && (forall j: nat :: now <= clock(0) <= clock(j) <= end)
    && (s.timers != [] ==> end <= s.info[s.timers[0]].deadline + TWO_31)
  }

  lemma TailTimely<T>(s: State<T>, now: nat)
    requires Timely(s, now) && s.timers != [] && |s.ready| > 0
    ensures Timely(ReleaseHead(s), now)
    ensures |s.timers| > 1 ==> s.info[s.timers[0]].deadline <= s.info[s.timers[1]].deadline
  {
    var r := s.timers[1..];
    forall i, j | 0 <= i < j < |r| ensures InOrder(s.info, r, i, j) {
      assert InOrder(s.info, s.timers, i + 1, j + 1);
    }
    if |s.timers| > 1 { assert InOrder(s.info, s.timers, 0, 1); }
  }

  lemma CountSteps<T>(s: State<T>, clock: nat -> nat, i: nat)
    requires AllKnown(s.timers, s.info) && s.timers != [] && |s.ready| > 0 && s.info[s.timers[0]].deadline <= clock(i)
    ensures DueCount(s.timers, s.info, clock, i) == 1 + DueCount(ReleaseHead(s).timers, s.info, clock, i + 1)
  {
  }

  lemma HeadDueIsTrue<T>(s: State<T>, now: nat, t: nat)
    requires Timely(s, now) && s.timers != [] && now <= t <= s.info[s.timers[0]].deadline + TWO_31
    ensures HeadDue(s, t) <==> s.info[s.timers[0]].deadline <= t
    ensures !HeadDue(s, t) ==> t + Wrap(s.info[s.timers[0]].ticks - t) == s.info[s.timers[0]].deadline
  {
    var d := s.info[s.timers[0]].deadline;
    DiffIsTrue(d, t);
    if d > t { WrapOfDifference(d, t); }
  }

  lemma WrapOfDifference(d: int, t: int)
    requires 0 <= d - t < TWO_32
    ensures Wrap(Wrap(d) - t) == d - t
  {
  }

  /** The queues after the tasks of a list were added, each to the queue of its priority. */
  function Grown<T(==)>(ready: seq<seq<T>>, list: seq<T>, info: map<T, Info>): (r: seq<seq<T>>)
    requires AllKnown(list, info) && |ready| > 0
    ensures |r| == |ready|
  {
    seq(|ready|, q requires 0 <= q < |ready| => ready[q] + ForQueue(list, info, q, |ready|))
  }

  /** The state after the first k tasks of the timer list went to the queues of their
      priorities, in their order, and the timer was set for the next deadline. */
  function Released<T(==)>(s: State<T>, k: nat): State<T>
    requires AllKnown(s.timers, s.info) && k <= |s.timers| && |s.ready| > 0
  {
    s.(timers := s.timers[k..],
       ready := Grown(s.ready, s.timers[..k], s.info),
       listCount := s.listCount - k, readyCount := s.readyCount + k,
       armed := if k < |s.timers| then Some(s.info[s.timers[k]].deadline) else s.armed)
  }

  lemma ReleasedOneMore<T>(s: State<T>, k: nat)
    requires AllKnown(s.timers, s.info) && |s.ready| > 0 && 1 <= k <= |s.timers|
    ensures Released(s, k) == Released(ReleaseHead(s), k - 1)
  {
    var tail := s.timers[1..];
    assert tail[k - 1..] == s.timers[k..];
    assert tail[..k - 1] == s.timers[..k][1..];
    var r, r' := Released(s, k).ready, Released(ReleaseHead(s), k - 1).ready;
    forall q | 0 <= q < |r| ensures r[q] == r'[q] {}
    assert r == r';
  }

  lemma NothingReleased<T>(s: State<T>)
    requires AllKnown(s.timers, s.info) && |s.ready| > 0
    ensures Released(s, 0) == s.(armed := if s.timers == [] then s.armed else Some(s.info[s.timers[0]].deadline))
  {
    assert s.timers[0..] == s.timers && s.timers[..0] == [];
    var r := Released(s, 0).ready;
    forall q | 0 <= q < |r| ensures r[q] == s.ready[q] {}
    assert r == s.ready;
  }

  lemma HeadNotDue<T>(s: State<T>, clock: nat -> nat, i: nat, now: nat)
    requires Timely(s, now) && |s.ready| > 0
    requires s.timers != [] ==> now <= clock(i) < s.info[s.timers[0]].deadline
    ensures DueCount(s.timers, s.info, clock, i) == 0 && TaskEvent(s, clock, i) == Released(s, 0)
  {
    if s.timers != [] { HeadDueIsTrue(s, now, clock(i)); }
    NothingReleased(s);
  }

  // ----- Timer events however late

  /** The 32-bit ticks tell of a deadline that it has come. */
  predicate SeenDue(t: int, deadline: int) {
    Wrap(t - deadline) <= 0x8000_0000
  }

  lemma HeadDueIsSeen<T>(s: State<T>, t: nat)
    requires TimersOk(s.info, s.timers) && s.timers != []
    ensures HeadDue(s, t) <==> SeenDue(t, s.info[s.timers[0]].deadline)
  {
    var d := s.info[s.timers[0]].deadline;
    var k := d / 0x1_0000_0000 - t / 0x1_0000_0000;
    assert t - d == (Wrap(t) - Wrap(d)) - k * 0x1_0000_0000;
    WrapShifted(Wrap(t) - Wrap(d), -k);
    assert Wrap(t - d) == Wrap(Wrap(t) - Wrap(d));
  }

  /** The first k heads are seen to be due at the successive readings of the clock. */
  ghost predicate AllSeenDue<T>(timers: seq<T>, info: map<T, Info>, clock: nat -> nat, i: nat, k: nat)
    requires AllKnown(timers, info) && k <= |timers|
  {
    forall j :: 0 <= j < k ==> SeenDue(clock(i + j), info[timers[j]].deadline)
  }

  lemma SeenDueSteps<T>(timers: seq<T>, info: map<T, Info>, clock: nat -> nat, i: nat, k: nat)
    requires 1 <= k <= |timers| && AllKnown(timers, info) && AllKnown(timers[1..], info)
    ensures AllSeenDue(timers, info, clock, i, k) <==>
            SeenDue(clock(i), info[timers[0]].deadline) && AllSeenDue(timers[1..], info, clock, i + 1, k - 1)
  {
    if SeenDue(clock(i), info[timers[0]].deadline) && AllSeenDue(timers[1..], info, clock, i + 1, k - 1) {
      forall j | 0 <= j < k ensures SeenDue(clock(i + j), info[timers[j]].deadline) {
        if j > 0 { assert SeenDue(clock(i + 1 + (j - 1)), info[timers[1..][j - 1]].deadline); }
      }
    }
    if AllSeenDue(timers, info, clock, i, k) {
      assert SeenDue(clock(i + 0), info[timers[0]].deadline);
      forall j | 0 <= j < k - 1 ensures SeenDue(clock(i + 1 + j), info[timers[1..][j]].deadline) {
        assert SeenDue(clock(i + (j + 1)), info[timers[j + 1]].deadline);
      }
    }
  }

  lemma HeadHeldBack<T>(s: State<T>, clock: nat -> nat, i: nat, n: nat)
    requires AllKnown(s.timers, s.info) && |s.ready| > 0 && 1 <= n <= |s.timers| && !HeadDue(s, clock(i))
    ensures TaskEvent(s, clock, i) != Released(s, n)
  {
    assert |TaskEvent(s, clock, i).timers| > |Released(s, n).timers|;
  }

  lemma HeadLetGo<T>(s: State<T>, clock: nat -> nat, i: nat, n: nat)
    requires AllKnown(s.timers, s.info) && |s.ready| > 0 && 1 <= n <= |s.timers| && HeadDue(s, clock(i))
    ensures TaskEvent(s, clock, i) == Released(s, n) <==> TaskEvent(ReleaseHead(s), clock, i + 1) == Released(ReleaseHead(s), n - 1)
  {
    ReleasedOneMore(s, n);
  }

  /** When a timer event releases exactly the due tasks, however late: exactly if each of them is,
      modulo 2^32, at most 2^31 ticks late when it is looked at. */
  lemma {:induction false} EventReleasesDueExactly<T>(s: State<T>, clock: nat -> nat, i: nat, now: nat, n: nat)
    requires Timely(s, now) && |s.ready| > 0 && (forall j: nat :: now <= clock(j)) && n == DueCount(s.timers, s.info, clock, i)
    ensures TaskEvent(s, clock, i) == Released(s, n) <==> AllSeenDue(s.timers, s.info, clock, i, n)
    decreases |s.timers|
  {
    if s.timers == [] || s.info[s.timers[0]].deadline > clock(i) {
      HeadNotDue(s, clock, i, now);
    } else {
      DueIsLetGo(s, clock, i, now, n);
      if HeadDue(s, clock(i)) {
        EventReleasesDueExactly(ReleaseHead(s), clock, i + 1, now, n - 1);
        HeadLetGo(s, clock, i, n);
      } else {
        HeadHeldBack(s, clock, i, n);
      }
    }
  }

  lemma DueIsLetGo<T>(s: State<T>, clock: nat -> nat, i: nat, now: nat, n: nat)
    requires Timely(s, now) && |s.ready| > 0 && n == DueCount(s.timers, s.info, clock, i)
    requires s.timers != [] && s.info[s.timers[0]].deadline <= clock(i)
    ensures n >= 1 && Timely(ReleaseHead(s), now) && |ReleaseHead(s).ready| > 0 && ReleaseHead(s).info == s.info
    ensures n - 1 == DueCount(ReleaseHead(s).timers, s.info, clock, i + 1)
    ensures AllSeenDue(s.timers, s.info, clock, i, n) <==>
            HeadDue(s, clock(i)) && AllSeenDue(ReleaseHead(s).timers, s.info, clock, i + 1, n - 1)
  {
    TailTimely(s, now);
    HeadDueIsSeen(s, clock(i));
    CountSteps(s, clock, i);
    SeenDueSteps(s.timers, s.info, clock, i, n);
  }

  /** `svc_tasks_task_event` releases exactly the due tasks, if the first is at most 2^31 ticks late. */
  lemma EventReleasesDue<T>(s: State<T>, clock: nat -> nat, i: nat, now: nat, end: nat)
    requires Timely(s, now) && |s.ready| > 0 && ClockInWindow(s, clock, now, end)
    ensures TaskEvent(s, clock, i) == Released(s, DueCount(s.timers, s.info, clock, i))
  {
    var n := DueCount(s.timers, s.info, clock, i);
    forall j | 0 <= j < n ensures SeenDue(clock(i + j), s.info[s.timers[j]].deadline) {
      if j > 0 { assert InOrder(s.info, s.timers, 0, j); }
      assert now <= clock(i + j) <= end;
    }
    EventReleasesDueExactly(s, clock, i, now, n);
  }

  /** A task that is due at tick 1, and looked at more than 2^31 ticks later: it is not released, and
      the timer is set for the time at which the ticks have wrapped around. */
  lemma OverdueHeadWaits()
    ensures var s := State([], [[]], map[0 := Info(COMPLETE, Call(0, 0), 0, 0, 0, 0)], 0, 0, None, false, []);
            var moves := [Move(DoSchedule(0, Call(0, 0), 0, 1), i => 0, 0), Move(DoFire, i => 1, 1),
                          Move(DoHandleEvent, i => 0x8000_0002, 0x8000_0002)];
            var r := After(s, moves);
            && Initial(s) && r.timers == [0] && 0 in r.info && r.info[0].deadline == 1
            && r.armed == Some(0x1_0000_0001) && !r.pending
  {
    var s := State([], [[]], map[0 := Info(COMPLETE, Call(0, 0), 0, 0, 0, 0)], 0, 0, None, false, []);
    var first, second := Move(DoSchedule(0, Call(0, 0), 0, 1), i => 0, 0), Move(DoFire, i => 1, 1);
    var third := Move(DoHandleEvent, i => 0x8000_0002, 0x8000_0002);
    var s1 := Step(s, first.op, first.clock);
    assert s1.timers == [0] && s1.info[0] == Info(QUEUED, Call(0, 0), 0, 1, 1, 0) && s1.ready == [[]] && s1.armed == Some(1);
    var s2 := Step(s1, second.op, second.clock);
    var s3 := Step(s2, third.op, third.clock);
    assert !HeadDue(s2, 0x8000_0002);
    assert s3.timers == [0] && s3.armed == Some(0x1_0000_0001);
    var moves := [first, second, third];
    assert moves[1..] == [second, third] && moves[1..][1..] == [third] && moves[1..][1..][1..] == [];
    assert After(s, moves) == After(s1, moves[1..]) == After(s2, [third]) == s3;
  }

  lemma SuffixTimely<T>(s: State<T>, k: nat, now: nat)
    requires Timely(s, now) && k <= |s.timers|
    ensures Timely(s.(timers := s.timers[k..]), now)
    ensures forall i :: 0 <= i < |s.timers| ==> s.info[s.timers[0]].deadline <= s.info[s.timers[i]].deadline
  {
    var r := s.timers[k..];
    forall i, j | 0 <= i < j < |r| ensures InOrder(s.info, r, i, j) {
      assert InOrder(s.info, s.timers, i + k, j + k);
    }
    forall i | 0 <= i < |s.timers| ensures s.info[s.timers[0]].deadline <= s.info[s.timers[i]].deadline {
      if i > 0 { assert InOrder(s.info, s.timers, 0, i); }
    }
  }

  /** After a timer event in the window no wakeup is lost. */
  lemma EventIsTimely<T>(s: State<T>, clock: nat -> nat, i: nat, now: nat, end: nat)
    requires Timely(s, now) && |s.ready| > 0 && ClockInWindow(s, clock, now, end)
    ensures Timely(TaskEvent(s, clock, i), now) && Wakeup(TaskEvent(s, clock, i))
  {
    EventReleasesDue(s, clock, i, now, end);
    SuffixTimely(s, DueCount(s.timers, s.info, clock, i), now);
  }

  // ----- Insertion

  /** The place p of a due time in true time: after all deadlines that are not later. */
  ghost predicate TruePlace<T>(timers: seq<T>, info: map<T, Info>, due: int, p: nat)
    requires AllKnown(timers, info) && p <= |timers|
  {
    && (forall i :: 0 <= i < p ==> info[timers[i]].deadline <= due)
    && (p < |timers| ==> info[timers[p]].deadline > due)
  }

  /** Every deadline lies in the window around the new one. */
  ghost predicate DueInWindow<T>(timers: seq<T>, info: map<T, Info>, due: int)
    requires AllKnown(timers, info)
  {
    forall i :: 0 <= i < |timers| ==> -TWO_31 <= due - info[timers[i]].deadline < TWO_31
  }

  lemma {:induction false} InsertPosIsTrue<T>(timers: seq<T>, info: map<T, Info>, due: nat)
    requires TimersOk(info, timers) && DueInWindow(timers, info, due)
    ensures TruePlace(timers, info, due, InsertPos(timers, info, Wrap(due)))
  {
    if timers != [] {
      DiffIsTrue(due, info[timers[0]].deadline);
      var p := InsertPos(timers[1..], info, Wrap(due));
      InsertPosIsTrue(timers[1..], info, due);
      assert forall i :: 1 <= i < p + 1 ==> timers[i] == timers[1..][i - 1];
    }
  }

  lemma HeadGivesWindow<T>(s: State<T>, now: nat, due: nat)
    requires Timely(s, now) && now < due
    requires s.timers != [] ==> due < s.info[s.timers[0]].deadline + TWO_31
    ensures DueInWindow(s.timers, s.info, due)
  {
    SuffixTimely(s, 0, now);
  }

  /** A task with a new deadline, put at its true place, keeps the list sorted. */
  lemma InsertKeepsSorted<T>(timers: seq<T>, info: map<T, Info>, p: nat, t: T)
    requires AllKnown(timers, info) && Sorted(info, timers) && t in info && p <= |timers|
    requires TruePlace(timers, info, info[t].deadline, p) && Stamped(info, timers, info[t].stamp)
    ensures AllKnown(Inserted(timers, p, t), info) && Sorted(info, Inserted(timers, p, t))
  {
    var r := Inserted(timers, p, t);
    forall i | 0 <= i < |r| ensures r[i] == if i < p then timers[i] else if i == p then t else timers[i - 1] {}
    forall i, j | 0 <= i < j < |r| ensures InOrder(info, r, i, j) {
      if i == p {
        if j > p + 1 { assert InOrder(info, timers, p, j - 1); }
      } else if j != p {
        assert InOrder(info, timers, if i < p then i else i - 1, if j < p then j else j - 1);
      }
    }
  }

  /** What is recorded of a task in no list, or its status alone, does not matter here. */
  lemma TimelyElsewhere<T>(s: State<T>, r: State<T>, t: T, now: nat)
    requires Timely(s, now) && t in s.info && r.timers == s.timers && |r.history| >= |s.history|
    requires t in r.info && r.info == s.info[t := r.info[t]]
    requires t !in s.timers || r.info[t] == s.info[t].(status := r.info[t].status)
    ensures Timely(r, now)
    ensures forall i :: 0 <= i < |s.timers| ==> r.info[s.timers[i]].deadline == s.info[s.timers[i]].deadline
  {
    forall i, j | 0 <= i < j < |r.timers| ensures InOrder(r.info, r.timers, i, j) {
      assert InOrder(s.info, s.timers, i, j);
    }
  }

  lemma TimelyLater<T>(s: State<T>, now: nat, later: nat)
    requires Timely(s, now) && now <= later
    ensures Timely(s, later)
  {
  }

  /** Scheduling keeps the list sorted by true deadline, as long as the new delay and the
      lateness of the head together stay below 2^31 ticks. */
  lemma ScheduledInOrder<T>(s: State<T>, t: T, call: Call, prio: nat, delay: nat, now: nat)
    requires Timely(s, now) && t in s.info && t !in s.timers && 0 < delay < MAX_DELAY
    requires s.timers != [] ==> now + delay < s.info[s.timers[0]].deadline + TWO_31
    ensures var due := now + delay;
            var p := InsertPos(s.timers, s.info, Wrap(due));
            && TruePlace(s.timers, s.info, due, p)
            && Timely(TimerInserted(Accept(s, t, call, prio, Wrap(due), due), p, t), now)
  {
    var due := now + delay;
    var p := InsertPos(s.timers, s.info, Wrap(due));
    HeadGivesWindow(s, now, due);
    InsertPosIsTrue(s.timers, s.info, due);
    var a := Accept(s, t, call, prio, Wrap(due), due);
    TimelyElsewhere(s, a, t, now);
    InsertKeepsSorted(a.timers, a.info, p, t);
    InsertKeepsRest(a, p, t, now);
  }

  lemma InsertKeepsRest<T>(a: State<T>, p: nat, t: T, now: nat)
    requires Timely(a, now) && t in a.info && p <= |a.timers| && TimersOk(a.info, [t])
    requires a.info[t].deadline < now + MAX_DELAY && a.info[t].stamp < |a.history|
    ensures var r := Inserted(a.timers, p, t);
            TimersOk(a.info, r) && NotFar(a.info, r, now) && Stamped(a.info, r, |a.history|)
  {
    var r := Inserted(a.timers, p, t);
    TimersOkInserted(a.info, a.timers, p, t);
    forall i | 0 <= i < |r|
      ensures a.info[r[i]].deadline < now + MAX_DELAY && a.info[r[i]].stamp < |a.history|
    {
      assert r[i] == if i < p then a.timers[i] else if i == p then t else a.timers[i - 1];
    }
  }

  // ----- Steps in the window

  /** The condition on a call that may be timed wrongly: at its end the head of the timer list
      is at most 2^31 ticks late, and a new delay and that lateness stay below 2^31. */
  ghost predicate Prompt<T>(s: State<T>, op: Op<T>, clock: nat -> nat, now: nat, end: nat)
    requires AllKnown(s.timers, s.info)
  {
    && ClockInWindow(s, clock, now, end)
    && (op.DoSchedule? && s.timers != [] ==>
          clock(0) + (if op.ticks < 0x7FFF_FFFE then op.ticks else 0x7FFF_FFFE) < s.info[s.timers[0]].deadline + TWO_31)
  }

  ghost predicate Good<T>(s: State<T>, now: nat) {
    Inv(s) && Closed(s) && Timely(s, now) && Wakeup(s)
  }

  /** The 32-bit ticks of two deadlines tell that the new one is not earlier. */
  predicate SeenInOrder(due: int, deadline: int) {
    Wrap(due - deadline) < 0x8000_0000
  }

  lemma WrapShifted(x: int, k: int)
    ensures Wrap(x + k * 0x1_0000_0000) == Wrap(x)
  {
  }

  lemma SeenByTicks(due: int, deadline: int)
    ensures Diff(Wrap(due), Wrap(deadline)) >= 0 <==> SeenInOrder(due, deadline)
  {
    var k := due / 0x1_0000_0000 - deadline / 0x1_0000_0000;
    assert due - deadline == (Wrap(due) - Wrap(deadline)) + k * 0x1_0000_0000;
    WrapShifted(Wrap(due) - Wrap(deadline), k);
  }

  lemma SoonerIsSeen(due: int, deadline: int)
    requires 0 < deadline - due < TWO_31
    ensures !SeenInOrder(due, deadline)
  {
  }

  /** The search passes exactly the tasks up to the first one that does not seem due before. */
  lemma {:induction false} SearchStops<T>(timers: seq<T>, info: map<T, Info>, due: nat)
    requires TimersOk(info, timers)
    ensures var p := InsertPos(timers, info, Wrap(due));
            && (forall i :: 0 <= i < p ==> SeenInOrder(due, info[timers[i]].deadline))
            && (p < |timers| ==> !SeenInOrder(due, info[timers[p]].deadline))
  {
    if timers != [] {
      SeenByTicks(due, info[timers[0]].deadline);
      SearchStops(timers[1..], info, due);
      var p := InsertPos(timers[1..], info, Wrap(due));
      assert forall i :: 1 <= i < p + 1 ==> timers[i] == timers[1..][i - 1];
    }
  }

  /** Every waiting task that is due no later than the new one is seen to be. */
  ghost predicate AllSeen<T>(info: map<T, Info>, timers: seq<T>, due: int)
    requires AllKnown(timers, info)
  {
    forall i :: 0 <= i < |timers| && info[timers[i]].deadline <= due ==> SeenInOrder(due, info[timers[i]].deadline)
  }

  lemma SeenGivesPlace<T>(info: map<T, Info>, timers: seq<T>, due: nat, now: nat, p: nat)
    requires TimersOk(info, timers) && NotFar(info, timers, now) && now < due && p == InsertPos(timers, info, Wrap(due))
    requires AllSeen(info, timers, due)
    ensures TruePlace(timers, info, due, p)
  {
    SearchStops(timers, info, due);
    forall i | 0 <= i < |timers| && info[timers[i]].deadline > due ensures !SeenInOrder(due, info[timers[i]].deadline) {
      SoonerIsSeen(due, info[timers[i]].deadline);
    }
  }

  /** When the list stays sorted, however late its tasks are: exactly if each waiting task that
      is due no later than the new one is less than 2^31 ticks before it, in 32 bits. */
  lemma SortedExactly<T>(s: State<T>, t: T, call: Call, prio: nat, delay: nat, now: nat)
    requires Timely(s, now) && Closed(s) && t in s.info && t !in s.timers && 0 < delay < MAX_DELAY
    ensures var r := Placed(s, t, call, prio, now + delay);
            && AllKnown(r.timers, r.info)
            && (Sorted(r.info, r.timers) <==> AllSeen(s.info, s.timers, now + delay))
  {
    var due := now + delay;
    var a := Accept(s, t, call, prio, Wrap(due), due);
    var p := InsertPos(s.timers, s.info, Wrap(due));
    AcceptedElsewhere(s, a, t, call, prio, due, now);
    SortedAt(s, a, t, due, now, p);
    PlacedIs(s, a, t, call, prio, due, p);
  }

  lemma PlacedIs<T>(s: State<T>, a: State<T>, t: T, call: Call, prio: nat, due: nat, p: nat)
    requires Closed(s) && t in s.info && a == Accept(s, t, call, prio, Wrap(due), due) && p == InsertPos(s.timers, s.info, Wrap(due))
    ensures p <= |a.timers| && Placed(s, t, call, prio, due).timers == Inserted(a.timers, p, t)
    ensures Placed(s, t, call, prio, due).info == a.info
  {
  }

  lemma AcceptedElsewhere<T>(s: State<T>, a: State<T>, t: T, call: Call, prio: nat, due: nat, now: nat)
    requires Timely(s, now) && Closed(s) && t in s.info && t !in s.timers && a == Accept(s, t, call, prio, Wrap(due), due)
    ensures Timely(a, now) && a.timers == s.timers && t in a.info
    ensures a.info[t].deadline == due && a.info[t].ticks == Wrap(due) && a.info[t].stamp == |s.history| < |a.history|
    ensures forall i :: 0 <= i < |s.timers| ==> a.info[s.timers[i]] == s.info[s.timers[i]]
  {
    TimelyElsewhere(s, a, t, now);
  }

  lemma SortedAt<T>(s: State<T>, a: State<T>, t: T, due: nat, now: nat, p: nat)
    requires Timely(s, now) && Timely(a, now) && now < due < now + MAX_DELAY && p == InsertPos(s.timers, s.info, Wrap(due))
    requires t !in s.timers && t in a.info && a.timers == s.timers
    requires a.info[t].deadline == due && a.info[t].ticks == Wrap(due) && a.info[t].stamp == |s.history| < |a.history|
    requires forall i :: 0 <= i < |s.timers| ==> a.info[s.timers[i]] == s.info[s.timers[i]]
    ensures AllKnown(Inserted(a.timers, p, t), a.info)
    ensures Sorted(a.info, Inserted(a.timers, p, t)) <==> AllSeen(s.info, s.timers, due)
  {
    InsertKeepsRest(a, p, t, now);
    if AllSeen(s.info, s.timers, due) {
      SeenGivesPlace(s.info, s.timers, due, now, p);
      InsertKeepsSorted(a.timers, a.info, p, t);
    } else {
      SearchStops(s.timers, s.info, due);
      NewGoesAhead(s, a, t, p, now);
    }
  }

  /** A task put before one that is due no later breaks the order. */
  lemma NewGoesAhead<T>(s: State<T>, a: State<T>, t: T, p: nat, now: nat)
    requires Timely(s, now) && Timely(a, now) && a.timers == s.timers && t in a.info && t !in s.timers && p < |s.timers|
    requires forall i :: 0 <= i < |s.timers| ==> a.info[s.timers[i]] == s.info[s.timers[i]]
    requires forall i :: 0 <= i < |s.timers| ==> s.info[s.timers[i]].stamp < a.info[t].stamp
    requires exists i :: p <= i < |s.timers| && s.info[s.timers[i]].deadline <= a.info[t].deadline
    requires AllKnown(Inserted(a.timers, p, t), a.info)
    ensures !Sorted(a.info, Inserted(a.timers, p, t))
  {
    var i :| p <= i < |s.timers| && s.info[s.timers[i]].deadline <= a.info[t].deadline;
    if p < i { assert InOrder(s.info, s.timers, p, i); }
    var r := Inserted(a.timers, p, t);
    assert r[p] == t && r[p + 1] == s.timers[p];
    assert !InOrder(a.info, r, p, p + 1);
  }

  /** So it does while the new delay and the lateness of the head together stay below 2^31. */
  lemma SortedInWindow<T>(s: State<T>, t: T, call: Call, prio: nat, delay: nat, now: nat)
    requires Timely(s, now) && Closed(s) && t in s.info && t !in s.timers && 0 < delay < MAX_DELAY
    requires s.timers != [] ==> now + delay < s.info[s.timers[0]].deadline + TWO_31
    ensures AllSeen(s.info, s.timers, now + delay)
  {
    SuffixTimely(s, 0, now);
  }

  /** A task that is due at tick 1 and not released for 2^31 ticks: a second one with a delay of
      two ticks goes before it. The two calls are the whole run. */
  lemma LateHeadIsOvertaken()
    ensures var idle := Info(COMPLETE, Call(0, 0), 0, 0, 0, 0);
            var s := State([], [[]], map[0 := idle, 1 := idle], 0, 0, None, false, []);
            var first := Move(DoSchedule(0, Call(0, 0), 0, 1), i => 0, 0);
            var second := Move(DoSchedule(1, Call(1, 0), 0, 2), i => 0x8000_0000, 0x8000_0000);
            var r := After(s, [first, second]);
            && Initial(s) && r.timers == [1, 0] && r.info.Keys == {0, 1}
            && r.info[1].deadline > r.info[0].deadline
  {
    var idle := Info(COMPLETE, Call(0, 0), 0, 0, 0, 0);
    var s := State([], [[]], map[0 := idle, 1 := idle], 0, 0, None, false, []);
    var first := Move(DoSchedule(0, Call(0, 0), 0, 1), i => 0, 0);
    var second := Move(DoSchedule(1, Call(1, 0), 0, 2), i => 0x8000_0000, 0x8000_0000);
    var s1 := Step(s, first.op, first.clock);
    assert s1.timers == [0] && s1.info[0] == Info(QUEUED, Call(0, 0), 0, 1, 1, 0) && s1.info[1] == idle && s1.ready == [[]];
    assert Closed(s1) && Enabled(s1, second.op);
    assert Diff(Wrap(0x8000_0000 + 2), 1) < 0;
    assert InsertPos([0], s1.info, Wrap(0x8000_0000 + 2)) == 0;
    var s2 := Step(s1, second.op, second.clock);
    assert s2.timers == [1] + [0];
    assert [first, second][1..] == [second] && [second][1..] == [];
    assert After(s, [first, second]) == After(s1, [second]) == s2;
  }

  /** The state of `Delay` between the insertion and what follows on it. */
  function Placed<T(==)>(s: State<T>, t: T, call: Call, prio: nat, due: nat): State<T>
    requires t in s.info && Closed(s)
  {
    TimerInserted(Accept(s, t, call, prio, Wrap(due), due), InsertPos(s.timers, s.info, Wrap(due)), t)
  }

  lemma PlacedIsTimely<T>(s: State<T>, t: T, call: Call, prio: nat, delay: nat, now: nat)
    requires Timely(s, now) && Closed(s) && t in s.info && t !in s.timers && 0 < delay < MAX_DELAY
    requires s.timers != [] ==> now + delay < s.info[s.timers[0]].deadline + TWO_31
    ensures var p, r := InsertPos(s.timers, s.info, Wrap(now + delay)), Placed(s, t, call, prio, now + delay);
            && Timely(r, now) && r.timers != [] && r.info[t].deadline == now + delay
            && (if p == 0 then r.timers[0] == t
                else s.timers != [] && r.timers[0] == s.timers[0] && r.info[s.timers[0]].deadline == s.info[s.timers[0]].deadline)
  {
    ScheduledInOrder(s, t, call, prio, delay, now);
  }

  lemma DelayFirst<T>(s: State<T>, t: T, call: Call, prio: nat, delay: nat, clock: nat -> nat, now: nat, end: nat)
    requires Closed(s) && t in s.info && Timely(Placed(s, t, call, prio, now + delay), now)
    requires now == clock(0) <= end && InsertPos(s.timers, s.info, Wrap(now + delay)) == 0
    ensures Timely(Delay(s, t, call, prio, delay, clock), end) && Wakeup(Delay(s, t, call, prio, delay, clock))
  {
    var r := Placed(s, t, call, prio, now + delay);
    assert Delay(s, t, call, prio, delay, clock) == SetTimer(r, now, delay);
    TimerSetIsTimely(r, now, delay, end);
  }

  lemma DelayBehind<T>(s: State<T>, t: T, call: Call, prio: nat, delay: nat, clock: nat -> nat, now: nat, end: nat, r: State<T>)
    requires Closed(s) && t in s.info && Wakeup(s) && s.timers != []
    requires now == clock(0) && InsertPos(s.timers, s.info, Wrap(now + delay)) > 0
    requires r == Placed(s, t, call, prio, now + delay)
    requires Timely(r, now) && r.timers != [] && r.timers[0] == s.timers[0]
    requires r.info[s.timers[0]].deadline == s.info[s.timers[0]].deadline && ClockInWindow(r, clock, now, end)
    ensures Timely(Delay(s, t, call, prio, delay, clock), end) && Wakeup(Delay(s, t, call, prio, delay, clock))
  {
    if s.armed == None {
      assert Delay(s, t, call, prio, delay, clock) == TaskEvent(r, clock, 1);
      EventThenLater(r, clock, 1, now, end);
    } else {
      assert Delay(s, t, call, prio, delay, clock) == r;
      TimelyLater(r, now, end);
    }
  }

  lemma DelayIsTimely<T>(s: State<T>, t: T, call: Call, prio: nat, delay: nat, clock: nat -> nat, now: nat, end: nat)
    requires Timely(s, now) && Wakeup(s) && Closed(s) && t in s.info && t !in s.timers && 0 < delay < MAX_DELAY
    requires ClockInWindow(s, clock, now, end)
    requires s.timers != [] ==> clock(0) + delay < s.info[s.timers[0]].deadline + TWO_31
    ensures Timely(Delay(s, t, call, prio, delay, clock), end) && Wakeup(Delay(s, t, call, prio, delay, clock))
  {
    var now1 := clock(0);
    TimelyLater(s, now, now1);
    PlacedIsTimely(s, t, call, prio, delay, now1);
    if InsertPos(s.timers, s.info, Wrap(now1 + delay)) == 0 {
      DelayFirst(s, t, call, prio, delay, clock, now1, end);
    } else {
      DelayBehind(s, t, call, prio, delay, clock, now1, end, Placed(s, t, call, prio, now1 + delay));
    }
  }

  lemma EventThenLater<T>(r: State<T>, clock: nat -> nat, i: nat, now: nat, end: nat)
    requires Timely(r, now) && |r.ready| > 0 && ClockInWindow(r, clock, now, end)
    ensures Timely(TaskEvent(r, clock, i), end) && Wakeup(TaskEvent(r, clock, i))
  {
    EventIsTimely(r, clock, i, now, end);
    assert now <= clock(0) <= end;
    TimelyLater(TaskEvent(r, clock, i), now, end);
  }

  lemma TimerSetIsTimely<T>(r: State<T>, now: nat, delay: nat, end: nat)
    requires Timely(r, now) && now <= end && r.timers != [] && r.info[r.timers[0]].deadline == now + delay
    ensures Timely(SetTimer(r, now, delay), end) && Wakeup(SetTimer(r, now, delay))
  {
    TimelyLater(r, now, end);
  }

  lemma TimersDistinct<T>(info: map<T, Info>, timers: seq<T>, i: nat, k: nat)
    requires AllKnown(timers, info) && Sorted(info, timers) && i < |timers| && k < |timers| && i != k
    ensures timers[i] != timers[k]
  {
    assert InOrder(info, timers, if i < k then i else k, if i < k then k else i);
  }

  lemma DropKeepsTimely<T>(info: map<T, Info>, timers: seq<T>, k: nat, now: nat, n: nat)
    requires ListTimely(info, timers, now, n) && k < |timers|
    ensures ListTimely(info, timers[..k] + timers[k + 1..], now, n)
  {
    var r := timers[..k] + timers[k + 1..];
    forall i | 0 <= i < |r| ensures r[i] == timers[if i < k then i else i + 1] {}
    forall i, j | 0 <= i < j < |r| ensures InOrder(info, r, i, j) {
      assert InOrder(info, timers, if i < k then i else i + 1, if j < k then j else j + 1);
    }
  }

  lemma WithoutOther<T>(s: State<T>, t: T, now: nat)
    requires Timely(s, now) && t in s.timers
    ensures Timely(TimerTaken(s, t), now) && t !in Without(s.timers, t)
    ensures s.timers[0] != t ==> TimerTaken(s, t).timers != [] && TimerTaken(s, t).timers[0] == s.timers[0]
    ensures s.timers[0] == t ==> Without(s.timers, t) == s.timers[1..]
  {
    var k :| 0 <= k < |s.timers| && s.timers[k] == t;
    forall i | 0 <= i < |s.timers| && i != k ensures s.timers[i] != t {
      TimersDistinct(s.info, s.timers, i, k);
    }
    WithoutAt(s.timers, k);
    DropKeepsTimely(s.info, s.timers, k, now, |s.history|);
  }

  lemma {:induction false} WithoutAt<T>(list: seq<T>, k: nat)
    requires k < |list| && forall i :: 0 <= i < k ==> list[i] != list[k]
    ensures Without(list, list[k]) == list[..k] + list[k + 1..]
  {
    if k > 0 {
      WithoutAt(list[1..], k - 1);
      assert list[..k] == [list[0]] + list[1..][..k - 1];
    }
  }

  lemma WithdrawIsTimely<T>(s: State<T>, t: T, now: nat)
    requires Timely(s, now) && Wakeup(s) && t in s.info
    ensures Timely(Withdraw(s, t), now) && Wakeup(Withdraw(s, t))
  {
    TimelyElsewhere(s, Withdraw(s, t), t, now);
  }

  lemma CancelTimerIsTimely<T>(s: State<T>, t: T, clock: nat -> nat, now: nat, end: nat)
    requires Timely(s, now) && Wakeup(s) && Closed(s) && t in s.timers && t in s.info
    requires ClockInWindow(s, clock, now, end)
    ensures Timely(CancelTimer(s, t, clock), end) && Wakeup(CancelTimer(s, t, clock))
  {
    WithoutOther(s, t, now);
    WithoutKnown(s.timers, t, s.info);
    var r := TimerTaken(s, t);
    if s.timers[0] == t {
      SuffixTimely(s, 0, now);
      EventIsTimely(r, clock, 0, now, end);
      WithdrawIsTimely(TaskEvent(r, clock, 0), t, now);
    } else {
      WithdrawIsTimely(r, t, now);
    }
    TimelyLater(CancelTimer(s, t, clock), now, end);
  }

  lemma CancelReadyIsTimely<T>(s: State<T>, q: nat, t: T, clock: nat -> nat, now: nat, end: nat)
    requires Timely(s, now) && Wakeup(s) && Closed(s) && q < |s.ready| && t in s.info
    requires ClockInWindow(s, clock, now, end)
    ensures Timely(CancelReady(s, q, t, clock), end) && Wakeup(CancelReady(s, q, t, clock))
  {
    var r := Withdraw(ReadyTaken(s, q, t), t);
    TimelyElsewhere(s, r, t, now);
    EventThenLater(r, clock, 0, now, end);
  }

  /** Without new deadlines and timer events nothing changes for the timer list. */
  lemma StillTimely<T>(s: State<T>, r: State<T>, t: T, now: nat, end: nat)
    requires Timely(s, now) && Wakeup(s) && now <= end && t in s.info && r.timers == s.timers && |r.history| >= |s.history|
    requires t in r.info && r.info == s.info[t := r.info[t]] && r.armed == s.armed && r.pending == s.pending
    requires t !in s.timers || r.info[t] == s.info[t].(status := r.info[t].status)
    ensures Timely(r, end) && Wakeup(r)
  {
    TimelyElsewhere(s, r, t, now);
    TimelyLater(r, now, end);
  }

  lemma ScheduleIsTimely<T>(s: State<T>, t: T, call: Call, prio: nat, ticks: nat, clock: nat -> nat, now: nat, end: nat)
    requires Good(s, now) && t in s.info && Prompt(s, DoSchedule(t, call, prio, ticks), clock, now, end)
    ensures Timely(Schedule(s, t, call, prio, ticks, clock).0, end) && Wakeup(Schedule(s, t, call, prio, ticks, clock).0)
  {
    assert now <= clock(0) <= end;
    StatusOf(s, t);
    if s.info[t].status == QUEUED {
      TimelyLater(s, now, end);
    } else {
      NotListed(s, multiset{}, t);
      if Clamp(ticks) == 0 {
        StillTimely(s, Add(s, t, call, prio).0, t, now, end);
      } else {
        DelayIsTimely(s, t, call, prio, Clamp(ticks), clock, now, end);
      }
    }
  }

  lemma CancelIsTimely<T>(s: State<T>, t: T, clock: nat -> nat, now: nat, end: nat)
    requires Good(s, now) && t in s.info && ClockInWindow(s, clock, now, end)
    ensures Timely(Cancel(s, t, clock).0, end) && Wakeup(Cancel(s, t, clock).0)
  {
    StatusOf(s, t);
    if t in s.timers {
      CancelTimerIsTimely(s, t, clock, now, end);
    } else if s.info[t].status == QUEUED {
      var q := QueuedInItsQueue(s, t);
      CancelReadyIsTimely(s, q, t, clock, now, end);
    } else {
      assert now <= clock(0) <= end;
      TimelyLater(s, now, end);
    }
  }

  lemma RunIsTimely<T>(s: State<T>, q: nat, now: nat, end: nat)
    requires Timely(s, now) && Wakeup(s) && Closed(s) && q < |s.ready| && now <= end
    ensures Timely(Run(s, q), end) && Wakeup(Run(s, q))
  {
    if s.ready[q] == [] {
      TimelyLater(s, now, end);
    } else {
      assert AllKnown(s.ready[q], s.info);
      StillTimely(s, Run(s, q), s.ready[q][0], now, end);
    }
  }

  /** Every prompt step keeps the timer list sorted by true deadline, and no wakeup is lost. */
  lemma StepIsTimely<T>(s: State<T>, op: Op<T>, clock: nat -> nat, now: nat, end: nat)
    requires Good(s, now) && Enabled(s, op) && Prompt(s, op, clock, now, end)
    ensures Good(Step(s, op, clock), end)
  {
    StepKeeps(s, op, clock);
    InvIsClosed(Step(s, op, clock), multiset{});
    TimedStep(s, op, clock, now, end);
  }

  lemma TimedStep<T>(s: State<T>, op: Op<T>, clock: nat -> nat, now: nat, end: nat)
    requires Good(s, now) && Enabled(s, op) && Prompt(s, op, clock, now, end)
    ensures var r := Step(s, op, clock); Timely(r, end) && Wakeup(r)
  {
    assert now <= clock(0) <= end;
    match op
    case DoSchedule(t, call, prio, ticks) => ScheduleIsTimely(s, t, call, prio, ticks, clock, now, end);
    case DoCancel(t) => CancelIsTimely(s, t, clock, now, end);
    case DoRun(q) => RunIsTimely(s, q, now, end);
    case DoComplete(t) => StillTimely(s, Complete(s, t), t, now, end);
    case DoFire => TimelyLater(s, now, end);
    case DoHandleEvent => EventThenLater(s.(pending := false), clock, 0, now, end);
  }

  // ----- Runs

  /** One call of a run: its readings of the clock, and the time it ends. */
  datatype Move<T> = Move(op: Op<T>, clock: nat -> nat, end: nat)

  function After<T(==)>(s: State<T>, moves: seq<Move<T>>): State<T>
    decreases |moves|
  {
    if moves == [] then s
    else if Closed(s) && Enabled(s, moves[0].op) then After(Step(s, moves[0].op, moves[0].clock), moves[1..])
    else After(s, moves[1..])
  }

  /** Every call of the run is prompt. */
  ghost predicate AllPrompt<T>(s: State<T>, moves: seq<Move<T>>, now: nat)
    decreases |moves|
  {
    moves == [] ||
    (Closed(s) && Enabled(s, moves[0].op)
     && Prompt(s, moves[0].op, moves[0].clock, now, moves[0].end)
     && AllPrompt(Step(s, moves[0].op, moves[0].clock), moves[1..], moves[0].end))
  }

  /** The scheduler at the start: idle tasks, empty lists. */
  ghost predicate Initial<T>(s: State<T>) {
    && s.timers == [] && |s.ready| > 0 && (forall q :: 0 <= q < |s.ready| ==> s.ready[q] == [])
    && s.listCount == 0 && s.readyCount == 0 && s.history == []
    && forall t :: t in s.info ==> s.info[t].status == COMPLETE && s.info[t].prio < 0x100
  }

  lemma {:induction false} PoolOfEmpty<T>(ready: seq<seq<T>>)
    requires forall q :: 0 <= q < |ready| ==> ready[q] == []
    ensures Pool(ready) == multiset{}
  {
    if ready != [] { PoolOfEmpty(ready[..|ready| - 1]); }
  }

  lemma InitialIsGood<T>(s: State<T>, now: nat)
    requires Initial(s)
    ensures Good(s, now)
  {
    PoolOfEmpty(s.ready);
    assert Tally(s) + multiset{} == multiset{};
    forall q | 0 <= q < |s.ready| ensures QueueOk(s.info, s.ready[q], q, |s.ready|) {}
    InvIsClosed(s, multiset{});
  }

  /** Over every run, however late the calls: a task's status, its place, the counters and its
      ledger agree. */
  lemma {:induction false} InvOverRuns<T>(s: State<T>, moves: seq<Move<T>>)
    requires Inv(s)
    ensures Inv(After(s, moves))
    decreases |moves|
  {
    if moves != [] {
      if Closed(s) && Enabled(s, moves[0].op) {
        StepKeeps(s, moves[0].op, moves[0].clock);
        InvOverRuns(Step(s, moves[0].op, moves[0].clock), moves[1..]);
      } else {
        InvOverRuns(s, moves[1..]);
      }
    }
  }

  /** Conservation: over every run from the start, each accepted call of a task has had exactly
      one outcome, a run or a cancellation, but for the one the task is still queued for. */
  lemma ConservationOverRuns<T>(s: State<T>, moves: seq<Move<T>>, t: T)
    requires Initial(s) && t in After(s, moves).info
    ensures var r := After(s, moves);
            && !LedgerOf(r.history, t).Broken?
            && Acceptances(r.history, t) == Outcomes(r.history, t) + if r.info[t].status == QUEUED then 1 else 0
  {
    InitialIsGood(s, 0);
    InvOverRuns(s, moves);
    var r := After(s, moves);
    assert TaskOk(r.info[t], (Tally(r) + multiset{})[t], LedgerOf(r.history, t));
    UnbrokenBalances(r.history, t);
  }

  /** Over every run each outcome belongs to the accepted call that is open then. A run gets the
      call as it was accepted; a cancellation gets it exactly if the parameter fits 32 bits. */
  lemma OutcomesOverRuns<T>(s: State<T>, moves: seq<Move<T>>, t: T, i: nat)
    requires Initial(s) && t in After(s, moves).info
    requires i < |After(s, moves).history| && After(s, moves).history[i].task == t && !After(s, moves).history[i].Accepted?
    ensures var h := After(s, moves).history;
            && LedgerOf(h[..i], t).Open?
            && (h[i].Ran? ==> h[i].call == LedgerOf(h[..i], t).call)
            && (h[i].Canceled? ==> (h[i].call == LedgerOf(h[..i], t).call <==> LedgerOf(h[..i], t).call.parm < TWO_32))
  {
    ConservationOverRuns(s, moves, t);
    OutcomeOfOpen(After(s, moves).history, t, i);
  }

  /** A call with a parameter of 33 bits, canceled: the callback gets another parameter. */
  lemma CanceledParameterIsCut()
    ensures var s := State([], [[]], map[0 := Info(COMPLETE, Call(0, 0), 0, 0, 0, 0)], 0, 0, None, false, []);
            var moves := [Move(DoSchedule(0, Call(7, 0x1_0000_0005), 0, 0), i => 0, 0), Move(DoCancel(0), i => 0, 0)];
            Initial(s) && After(s, moves).history == [Accepted(0, Call(7, 0x1_0000_0005)), Canceled(0, Call(7, 5))]
  {
    var s := State([], [[]], map[0 := Info(COMPLETE, Call(0, 0), 0, 0, 0, 0)], 0, 0, None, false, []);
    var first := Move(DoSchedule(0, Call(7, 0x1_0000_0005), 0, 0), i => 0, 0);
    var second := Move(DoCancel(0), i => 0, 0);
    var s1 := Step(s, first.op, first.clock);
    assert s1 == ToReady(Accept(s, 0, Call(7, 0x1_0000_0005), 0, 0, 0), 0);
    assert |s1.ready| == 1 && s1.ready[0] == [0] && s1.timers == [] && Closed(s1);
    var s2 := Step(s1, second.op, second.clock);
    assert s1.history == [Accepted(0, Call(7, 0x1_0000_0005))];
    assert s2 == CancelReady(s1, 0, 0, second.clock);
    assert [first, second][1..] == [second] && [second][1..] == [];
    assert After(s, [first, second]) == After(s1, [second]) == s2;
  }

  function EndOf<T>(moves: seq<Move<T>>, now: nat): nat {
    if moves == [] then now else moves[|moves| - 1].end
  }

  /** Over every prompt run the timer list is sorted by true deadline and no wakeup is lost. */
  lemma {:induction false} TimelyOverRuns<T>(s: State<T>, moves: seq<Move<T>>, now: nat)
    requires Good(s, now) && AllPrompt(s, moves, now)
    ensures Good(After(s, moves), EndOf(moves, now))
    decreases |moves|
  {
    if moves != [] {
      StepIsTimely(s, moves[0].op, moves[0].clock, now, moves[0].end);
      TimelyOverRuns(Step(s, moves[0].op, moves[0].clock), moves[1..], moves[0].end);
    }
  }
}
