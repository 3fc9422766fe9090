/**
 The recursive lock of src/os_mlock.c for any number of threads and locks. The calls of
 different threads interleave: a step is a section between two `os_sys_lock` and
 `os_sys_unlock`, or one operation on the semaphore or on the thread's own slots.
 */
module MLock {
  import opened Common

  /** Where a thread is in a call; the number is the lock. */
  datatype Place =
    | Outside
    | LockCheck(lock: nat) | LockRaise(lock: nat) | LockWait(lock: nat)
    | TryCheck(lock: nat) | TryWait(lock: nat) | TryRaise(lock: nat)
    | Own(lock: nat) | CountUp(lock: nat)
    | UnlockCheck(lock: nat) | CountDown(lock: nat) | Restore(lock: nat) | Signal(lock: nat)

  /** No code reads the token: it says which thread has taken the semaphore and not given it
      back yet. */
  datatype Lock = Lock(free: bool, owner: Option<nat>, cnt: int, ceiling: nat, token: Option<nat>)

  /** No code reads the depths either: how often the thread has entered each lock and not left
      it. `slot` is the saved priority, 0 at the start, and `count` the thread's own counter. */
  datatype Thread = Thread(at: Place, count: int, prio: nat, slot: nat, depth: seq<nat>)

  datatype State = State(locks: seq<Lock>, threads: seq<Thread>)

  datatype Action = CallLock(lock: nat) | CallTry(lock: nat) | CallUnlock(lock: nat) | Proceed

  /** Unlocking is asked of the owner only, as the source asserts. */
  predicate Enabled(s: State, t: nat, a: Action) {
    t < |s.threads| &&
    match a
    case CallLock(l) => s.threads[t].at.Outside? && l < |s.locks|
    case CallTry(l) => s.threads[t].at.Outside? && l < |s.locks|
    case CallUnlock(l) => s.threads[t].at.Outside? && l < |s.locks| && l < |s.threads[t].depth| && s.threads[t].depth[l] > 0
    case Proceed =>
      && !s.threads[t].at.Outside? && s.threads[t].at.lock < |s.locks| == |s.threads[t].depth|
      && (s.threads[t].at.LockWait? ==> s.locks[s.threads[t].at.lock].free)
      && (s.threads[t].at.UnlockCheck? ==> s.threads[t].depth[s.threads[t].at.lock] > 0)
  }

  function Goes(s: State, t: nat, to: Place): State
    requires t < |s.threads|
  {
    s.(threads := s.threads[t := s.threads[t].(at := to)])
  }

  function WithThread(s: State, t: nat, th: Thread): State
    requires t < |s.threads|
  {
    s.(threads := s.threads[t := th])
  }

  function WithLock(s: State, l: nat, lk: Lock): State
    requires l < |s.locks|
  {
    s.(locks := s.locks[l := lk])
  }

  /** The owner enters again: `cnt++`. */
  function EnterAgain(s: State, t: nat, l: nat): State
    requires t < |s.threads| && l < |s.locks| && l < |s.threads[t].depth|
  {
    var th, lk := s.threads[t], s.locks[l];
    WithThread(WithLock(s, l, lk.(cnt := lk.cnt + 1)), t, th.(at := Outside, depth := th.depth[l := th.depth[l] + 1]))
  }

  /** The first call of a thread saves its priority, and raises it to the ceiling of the lock. */
  function Raise(th: Thread, ceiling: nat): Thread {
    if th.slot != 0 then th
    else th.(slot := th.prio, prio := if th.prio < ceiling then ceiling else th.prio)
  }

  function TakeToken(s: State, t: nat, l: nat, to: Place): State
    requires t < |s.threads| && l < |s.locks|
  {
    Goes(WithLock(s, l, s.locks[l].(free := false, token := Some(t))), t, to)
  }

  function Step(s: State, t: nat, a: Action): State
    requires Enabled(s, t, a)
  {
    var th := s.threads[t];
    match a
    case CallLock(l) => Goes(s, t, LockCheck(l))
    case CallTry(l) => Goes(s, t, TryCheck(l))
    case CallUnlock(l) => Goes(s, t, UnlockCheck(l))
    case Proceed =>
      match th.at
      case LockCheck(l) => if s.locks[l].owner == Some(t) then EnterAgain(s, t, l) else Goes(s, t, LockRaise(l))
      case LockRaise(l) => WithThread(s, t, Raise(th, s.locks[l].ceiling).(at := LockWait(l)))
      case LockWait(l) => TakeToken(s, t, l, Own(l))
      case TryCheck(l) => if s.locks[l].owner == Some(t) then EnterAgain(s, t, l) else Goes(s, t, TryWait(l))
      case TryWait(l) => if s.locks[l].free then TakeToken(s, t, l, TryRaise(l)) else Goes(s, t, Outside)
      case TryRaise(l) => WithThread(s, t, Raise(th, s.locks[l].ceiling).(at := Own(l)))
      case Own(l) =>
        WithThread(WithLock(s, l, s.locks[l].(owner := Some(t), cnt := 1)), t, th.(at := CountUp(l), depth := th.depth[l := th.depth[l] + 1]))
      case CountUp(l) => WithThread(s, t, th.(at := Outside, count := th.count + 1))
      case UnlockCheck(l) => Leave(s, t, l)
      case CountDown(l) => WithThread(s, t, th.(at := Restore(l), count := th.count - 1))
      case Restore(l) => WithThread(s, t, th.(at := Signal(l), prio := if th.count == 0 then th.slot else th.prio))
      case Signal(l) => Goes(WithLock(s, l, s.locks[l].(free := true, token := None)), t, Outside)
  }

  /** The guarded section of `os_mlock_unlock`. */
  function Leave(s: State, t: nat, l: nat): State
    requires t < |s.threads| && l < |s.locks| && l < |s.threads[t].depth| && s.threads[t].depth[l] > 0
  {
    var th, lk := s.threads[t], s.locks[l];
    var last := lk.cnt == 1;
    WithThread(WithLock(s, l, lk.(cnt := lk.cnt - 1, owner := if last then None else lk.owner)),
               t, th.(at := if last then CountDown(l) else Outside, depth := th.depth[l := th.depth[l] - 1]))
  }

  // ----- The invariant

  function HeldCount(depth: seq<nat>): nat {
    if depth == [] then 0 else HeldCount(depth[..|depth| - 1]) + if depth[|depth| - 1] > 0 then 1 else 0
  }

  /** Between taking the semaphore and entering, or between leaving and giving it back. */
  predicate HasAround(at: Place) {
    at.Own? || at.TryRaise? || at.CountDown? || at.Restore? || at.Signal?
  }

  /** The thread has taken the lock's semaphore: it is inside, coming in, or going out. */
  predicate Has(th: Thread, l: nat)
    requires l < |th.depth|
  {
    th.depth[l] > 0 || (HasAround(th.at) && th.at.lock == l)
  }

  /** A place in a call names an existing lock; coming in and going out the thread is not inside. */
  predicate PlaceOk(th: Thread, n: nat) {
    && |th.depth| == n && (!th.at.Outside? ==> th.at.lock < n)
    && (th.at.LockRaise? || th.at.LockWait? || th.at.TryWait? || HasAround(th.at) ==> th.depth[th.at.lock] == 0)
    && (th.at.CountUp? || th.at.UnlockCheck? ==> th.depth[th.at.lock] > 0)
  }

  /** The thread's counter is the number of locks it is inside, but for the moment between. */
  predicate CountOk(th: Thread) {
    th.count + (if th.at.CountUp? then 1 else 0) - (if th.at.CountDown? then 1 else 0) == HeldCount(th.depth)
  }

  predicate ThreadOk(th: Thread, n: nat) {
    PlaceOk(th, n) && CountOk(th)
  }

  /** What a lock says of one thread. */
  predicate LockOk(lk: Lock, th: Thread, t: nat, l: nat)
    requires l < |th.depth|
  {
    && (Has(th, l) <==> lk.token == Some(t))
    && (lk.owner == Some(t) <==> th.depth[l] > 0)
    && (lk.owner == Some(t) ==> lk.cnt == th.depth[l])
  }

  predicate ThreadsOk(s: State) {
    forall t :: 0 <= t < |s.threads| ==> ThreadOk(s.threads[t], |s.locks|)
  }

  predicate TokenOk(lk: Lock, threads: nat) {
    && lk.free == lk.token.None? && (lk.token.Some? ==> lk.token.value < threads)
    && (lk.owner.Some? ==> lk.owner.value < threads)
  }

  predicate Agree(s: State, t: nat, l: nat)
    requires t < |s.threads| && l < |s.locks|
  {
    l < |s.threads[t].depth| && LockOk(s.locks[l], s.threads[t], t, l)
  }

  predicate Inv(s: State) {
    && ThreadsOk(s)
    && (forall l :: 0 <= l < |s.locks| ==> TokenOk(s.locks[l], |s.threads|))
    && (forall t, l :: 0 <= t < |s.threads| && 0 <= l < |s.locks| ==> Agree(s, t, l))
  }

  lemma {:induction false} HeldUpdate(depth: seq<nat>, l: nat, d: nat)
    requires l < |depth|
    ensures HeldCount(depth[l := d]) == HeldCount(depth) + (if d > 0 then 1 else 0) - (if depth[l] > 0 then 1 else 0)
  {
    var n := |depth| - 1;
    if l < n {
      HeldUpdate(depth[..n], l, d);
      assert depth[l := d][..n] == depth[..n][l := d];
    } else {
      assert depth[l := d][..n] == depth[..n];
    }
  }

  /** A step changes one thread and one lock; what it has to keep. */
  lemma StepFrame(s: State, t: nat, a: Action, l: nat, r: State)
    requires Inv(s) && Enabled(s, t, a) && r == Step(s, t, a) && l < |s.locks|
    requires l == if a.Proceed? then s.threads[t].at.lock else a.lock
    ensures |r.threads| == |s.threads| && |r.locks| == |s.locks|
    ensures forall u :: 0 <= u < |s.threads| && u != t ==> r.threads[u] == s.threads[u]
    ensures forall k :: 0 <= k < |s.locks| && k != l ==> r.locks[k] == s.locks[k]
  {
  }

  lemma EnterKeeps(s: State, t: nat, l: nat)
    requires Inv(s) && t < |s.threads| && l < |s.locks|
    requires s.threads[t].at == LockCheck(l) || s.threads[t].at == TryCheck(l)
    requires s.locks[l].owner == Some(t) && |s.threads[t].depth| == |s.locks|
    ensures var r := EnterAgain(s, t, l);
            ThreadOk(r.threads[t], |s.locks|) && TokenOk(r.locks[l], |s.threads|) && Agree(r, t, l)
  {
    var th := s.threads[t];
    assert ThreadOk(th, |s.locks|) && Agree(s, t, l) && TokenOk(s.locks[l], |s.threads|);
    HeldUpdate(th.depth, l, th.depth[l] + 1);
  }

  lemma LeaveKeeps(s: State, t: nat, l: nat)
    requires Inv(s) && t < |s.threads| && l < |s.locks| && s.threads[t].at == UnlockCheck(l)
    requires l < |s.threads[t].depth| && s.threads[t].depth[l] > 0
    ensures var r := Leave(s, t, l);
            ThreadOk(r.threads[t], |s.locks|) && TokenOk(r.locks[l], |s.threads|) && Agree(r, t, l)
  {
    var th := s.threads[t];
    assert ThreadOk(th, |s.locks|) && Agree(s, t, l) && TokenOk(s.locks[l], |s.threads|);
    HeldUpdate(th.depth, l, th.depth[l] - 1);
  }

  lemma OwnKeeps(s: State, t: nat, l: nat)
    requires Inv(s) && t < |s.threads| && l < |s.locks| && s.threads[t].at == Own(l) && Enabled(s, t, Proceed)
    ensures var r := Step(s, t, Proceed);
            && |r.threads| == |s.threads| && |r.locks| == |s.locks|
            && ThreadOk(r.threads[t], |s.locks|) && TokenOk(r.locks[l], |s.threads|) && Agree(r, t, l)
  {
    var th := s.threads[t];
    assert ThreadOk(th, |s.locks|) && Agree(s, t, l) && TokenOk(s.locks[l], |s.threads|);
    HeldUpdate(th.depth, l, th.depth[l] + 1);
  }

  lemma OwnThreadKeeps(s: State, t: nat, a: Action, l: nat, r: State)
    requires Inv(s) && Enabled(s, t, a) && r == Step(s, t, a) && l < |s.locks|
    requires l == if a.Proceed? then s.threads[t].at.lock else a.lock
    ensures |r.threads| == |s.threads| && |r.locks| == |s.locks|
    ensures ThreadOk(r.threads[t], |s.locks|) && TokenOk(r.locks[l], |s.threads|) && Agree(r, t, l)
  {
    var th := s.threads[t];
    assert ThreadOk(th, |s.locks|) && Agree(s, t, l) && TokenOk(s.locks[l], |s.threads|);
    if a.Proceed? {
      if (th.at.LockCheck? || th.at.TryCheck?) && s.locks[l].owner == Some(t) {
        EnterKeeps(s, t, l);
      } else if th.at.UnlockCheck? {
        LeaveKeeps(s, t, l);
      } else if th.at.Own? {
        OwnKeeps(s, t, l);
      } else {
        StraightKeeps(s, t, l, r);
      }
    }
  }

  /** The steps that neither enter nor leave a lock. */
  lemma StraightKeeps(s: State, t: nat, l: nat, r: State)
    requires Inv(s) && Enabled(s, t, Proceed) && r == Step(s, t, Proceed) && l == s.threads[t].at.lock < |s.locks|
    requires !s.threads[t].at.Own? && !s.threads[t].at.UnlockCheck?
    requires s.threads[t].at.LockCheck? || s.threads[t].at.TryCheck? ==> s.locks[l].owner != Some(t)
    ensures |r.threads| == |s.threads| && |r.locks| == |s.locks|
    ensures ThreadOk(r.threads[t], |s.locks|) && TokenOk(r.locks[l], |s.threads|) && Agree(r, t, l)
  {
    var th := s.threads[t];
    assert ThreadOk(th, |s.locks|) && Agree(s, t, l) && TokenOk(s.locks[l], |s.threads|);
    assert r.threads[t].depth == th.depth;
  }

  lemma OtherThreadKeeps(s: State, t: nat, a: Action, l: nat, r: State, u: nat)
    requires Inv(s) && Enabled(s, t, a) && r == Step(s, t, a) && l < |s.locks|
    requires l == if a.Proceed? then s.threads[t].at.lock else a.lock
    requires u < |s.threads| && u != t && |r.threads| == |s.threads| && |r.locks| == |s.locks| && r.threads[u] == s.threads[u]
    ensures Agree(r, u, l)
  {
    assert Agree(s, t, l) && Agree(s, u, l) && TokenOk(s.locks[l], |s.threads|) && ThreadOk(s.threads[t], |s.locks|);
  }

  lemma OtherLockKeeps(s: State, t: nat, a: Action, l: nat, r: State, k: nat)
    requires Inv(s) && Enabled(s, t, a) && r == Step(s, t, a) && l < |s.locks|
    requires l == if a.Proceed? then s.threads[t].at.lock else a.lock
    requires k < |s.locks| && k != l && |r.threads| == |s.threads| && |r.locks| == |s.locks| && r.locks[k] == s.locks[k]
    ensures Agree(r, t, k)
  {
    assert Agree(s, t, k) && ThreadOk(s.threads[t], |s.locks|);
  }

  /** Every step of every thread keeps the invariant. */
  lemma StepKeeps(s: State, t: nat, a: Action)
    requires Inv(s) && Enabled(s, t, a)
    ensures Inv(Step(s, t, a))
  {
    var r, l := Step(s, t, a), if a.Proceed? then s.threads[t].at.lock else a.lock;
    StepFrame(s, t, a, l, r);
    OwnThreadKeeps(s, t, a, l, r);
    forall u, k | 0 <= u < |r.threads| && 0 <= k < |r.locks| ensures Agree(r, u, k) {
      if u != t && k == l {
        OtherThreadKeeps(s, t, a, l, r, u);
      } else if u == t && k != l {
        OtherLockKeeps(s, t, a, l, r, k);
      } else if u != t {
        assert Agree(s, u, k);
      }
    }
    forall u | 0 <= u < |r.threads| ensures ThreadOk(r.threads[u], |r.locks|) {
      assert u != t ==> ThreadOk(s.threads[u], |s.locks|);
    }
    forall k | 0 <= k < |r.locks| ensures TokenOk(r.locks[k], |r.threads|) {
      assert k != l ==> TokenOk(s.locks[k], |s.threads|);
    }
  }

  // ----- Runs

  /** `os_mlock_init`, before any call. */
  predicate Initial(s: State) {
    && (forall l :: 0 <= l < |s.locks| ==>
          s.locks[l].free && s.locks[l].owner.None? && s.locks[l].cnt == 0 && s.locks[l].token.None?)
    && (forall t :: 0 <= t < |s.threads| ==>
          s.threads[t].at.Outside? && s.threads[t].count == 0 && s.threads[t].slot == 0 && AllZero(s.threads[t].depth, |s.locks|))
  }

  predicate AllZero(depth: seq<nat>, n: nat) {
    |depth| == n && forall i :: 0 <= i < n ==> depth[i] == 0
  }

  lemma {:induction false} NoneHeld(depth: seq<nat>)
    requires AllZero(depth, |depth|)
    ensures HeldCount(depth) == 0
  {
    if depth != [] { NoneHeld(depth[..|depth| - 1]); }
  }

  lemma InitialKeeps(s: State)
    requires Initial(s)
    ensures Inv(s)
  {
    forall t | 0 <= t < |s.threads| ensures ThreadOk(s.threads[t], |s.locks|) {
      NoneHeld(s.threads[t].depth);
    }
  }

  /** A run: who does what; what is not possible then does nothing. */
  function Run(s: State, steps: seq<(nat, Action)>): State
    decreases |steps|
  {
    if steps == [] then s
    else Run(if Enabled(s, steps[0].0, steps[0].1) then Step(s, steps[0].0, steps[0].1) else s, steps[1..])
  }

  lemma {:induction false} InvOverRuns(s: State, steps: seq<(nat, Action)>)
    requires Inv(s)
    ensures Inv(Run(s, steps))
    decreases |steps|
  {
    if steps != [] {
      if Enabled(s, steps[0].0, steps[0].1) {
        StepKeeps(s, steps[0].0, steps[0].1);
        InvOverRuns(Step(s, steps[0].0, steps[0].1), steps[1..]);
      } else {
        InvOverRuns(s, steps[1..]);
      }
    }
  }

  /** Over every run at most one thread is inside a lock, and no other has its semaphore. */
  lemma MutualExclusion(s: State, steps: seq<(nat, Action)>, t: nat, u: nat, l: nat)
    requires Initial(s)
    requires var r := Run(s, steps); t < |r.threads| && u < |r.threads| && l < |r.locks|
    ensures var r := Run(s, steps);
            && l < |r.threads[t].depth| && l < |r.threads[u].depth|
            && (Has(r.threads[t], l) && Has(r.threads[u], l) ==> t == u)
            && (Has(r.threads[t], l) ==> !r.locks[l].free)
  {
    InitialKeeps(s);
    InvOverRuns(s, steps);
    var r := Run(s, steps);
    assert Agree(r, t, l) && Agree(r, u, l) && TokenOk(r.locks[l], |r.threads|);
  }

  /** Over every run the check of the owner, made without the semaphore, tells the thread exactly
      whether it is inside itself, and the lock's count is how deep. The thread's own counter is
      the number of locks it is inside, whenever it is not in a call. */
  lemma OwnerAndCounters(s: State, steps: seq<(nat, Action)>, t: nat, l: nat)
    requires Initial(s)
    requires var r := Run(s, steps); t < |r.threads| && l < |r.locks|
    ensures var r := Run(s, steps); var th := r.threads[t];
            && l < |th.depth|
            && (r.locks[l].owner == Some(t) <==> th.depth[l] > 0)
            && (th.depth[l] > 0 ==> r.locks[l].cnt == th.depth[l])
            && (th.at.Outside? ==> th.count == HeldCount(th.depth))
  {
    InitialKeeps(s);
    InvOverRuns(s, steps);
    var r := Run(s, steps);
    assert Agree(r, t, l) && ThreadOk(r.threads[t], |r.locks|);
  }

  /** A thread waits for a lock only while another one is inside it, or just coming in or going
      out: it never waits for itself. Nobody waits for a lock that nobody has. */
  lemma WaitsForAnother(s: State, steps: seq<(nat, Action)>, t: nat, l: nat) returns (u: nat)
    requires Initial(s)
    requires var r := Run(s, steps); t < |r.threads| && r.threads[t].at == LockWait(l) && l < |r.locks| && !r.locks[l].free
    ensures var r := Run(s, steps);
            u < |r.threads| && u != t && l < |r.threads[u].depth| && Has(r.threads[u], l)
  {
    InitialKeeps(s);
    InvOverRuns(s, steps);
    var r := Run(s, steps);
    assert Agree(r, t, l) && ThreadOk(r.threads[t], |r.locks|) && TokenOk(r.locks[l], |r.threads|);
    u := r.locks[l].token.value;
    assert Agree(r, u, l);
  }

  // ----- The priority

  /** The thread was raised, or not, for the lock l, and waits for it, comes in or is inside. */
  predicate Stays(th: Thread, l: nat) {
    th.at == LockWait(l) || th.at == Own(l) || (l < |th.depth| && th.depth[l] > 0)
  }

  predicate StaysOver(s: State, steps: seq<(nat, Action)>, t: nat, l: nat)
    decreases |steps|
  {
    && t < |s.threads| && Stays(s.threads[t], l)
    && (steps != [] ==>
          StaysOver(if Enabled(s, steps[0].0, steps[0].1) then Step(s, steps[0].0, steps[0].1) else s, steps[1..], t, l))
  }

  lemma {:induction false} HeldIsCounted(depth: seq<nat>, l: nat)
    requires l < |depth| && depth[l] > 0
    ensures HeldCount(depth) > 0
  {
    if l < |depth| - 1 { HeldIsCounted(depth[..|depth| - 1], l); }
  }

  /** No step of any thread changes the priority of one that has saved it and stays: it takes the
      saved one back on leaving the last of its locks only. */
  lemma PrioKept(s: State, u: nat, a: Action, t: nat, l: nat)
    requires Inv(s) && Enabled(s, u, a) && t < |s.threads| && l < |s.locks|
    requires s.threads[t].slot > 0 && Stays(s.threads[t], l)
    ensures var r := Step(s, u, a);
            && t < |r.threads| && l < |r.locks| && r.locks[l].ceiling == s.locks[l].ceiling
            && r.threads[t].prio == s.threads[t].prio && r.threads[t].slot == s.threads[t].slot
  {
    var th := s.threads[t];
    assert ThreadOk(th, |s.locks|);
    if th.at.Restore? { HeldIsCounted(th.depth, l); }
  }

  lemma {:induction false} PrioKeptOverRun(s: State, steps: seq<(nat, Action)>, t: nat, l: nat)
    requires Inv(s) && StaysOver(s, steps, t, l) && l < |s.locks| && s.threads[t].slot > 0
    ensures var r := Run(s, steps);
            && t < |r.threads| && l < |r.locks| && r.locks[l].ceiling == s.locks[l].ceiling
            && r.threads[t].prio == s.threads[t].prio && r.threads[t].slot == s.threads[t].slot
    decreases |steps|
  {
    if steps != [] {
      if Enabled(s, steps[0].0, steps[0].1) {
        PrioKept(s, steps[0].0, steps[0].1, t, l);
        StepKeeps(s, steps[0].0, steps[0].1);
        PrioKeptOverRun(Step(s, steps[0].0, steps[0].1), steps[1..], t, l);
      } else {
        PrioKeptOverRun(s, steps[1..], t, l);
      }
    }
  }

  /** When a holder runs at the ceiling of its lock: over every run, while a thread that passes the
      raise waits for the lock, comes in and is inside, whatever else it and the others lock and
      unlock meanwhile, exactly if it had no priority saved before, or was at the ceiling then. */
  lemma HolderAtCeilingExactly(s: State, steps: seq<(nat, Action)>, t: nat, l: nat)
    requires Inv(s) && t < |s.threads| && l < |s.locks| && s.threads[t].prio > 0
    requires s.threads[t].at == LockRaise(l) || s.threads[t].at == TryRaise(l)
    requires StaysOver(Step(s, t, Proceed), steps, t, l)
    ensures var r := Run(s, [(t, Proceed)] + steps);
            && t < |r.threads| && l < |r.locks| && Stays(r.threads[t], l)
            && r.locks[l].ceiling == s.locks[l].ceiling
            && (r.threads[t].prio >= r.locks[l].ceiling <==>
                s.threads[t].slot == 0 || s.threads[t].prio >= s.locks[l].ceiling)
  {
    assert ([(t, Proceed)] + steps)[1..] == steps;
    StepKeeps(s, t, Proceed);
    PrioKeptOverRun(Step(s, t, Proceed), steps, t, l);
    StaysAtTheEnd(Step(s, t, Proceed), steps, t, l);
  }

  lemma {:induction false} StaysAtTheEnd(s: State, steps: seq<(nat, Action)>, t: nat, l: nat)
    requires StaysOver(s, steps, t, l)
    ensures t < |Run(s, steps).threads| && Stays(Run(s, steps).threads[t], l)
    decreases |steps|
  {
    if steps != [] {
      StaysAtTheEnd(if Enabled(s, steps[0].0, steps[0].1) then Step(s, steps[0].0, steps[0].1) else s, steps[1..], t, l);
    }
  }

  /** So a thread that locked once, and has its own priority again, never rises above it any more,
      whatever locks it enters and whatever their ceilings. */
  lemma {:induction false} NeverRaisedAgain(s: State, steps: seq<(nat, Action)>, t: nat)
    requires t < |s.threads| && 0 < s.threads[t].slot && s.threads[t].prio <= s.threads[t].slot
    ensures var r := Run(s, steps);
            t < |r.threads| && r.threads[t].slot == s.threads[t].slot && r.threads[t].prio <= s.threads[t].slot
    decreases |steps|
  {
    if steps != [] {
      if Enabled(s, steps[0].0, steps[0].1) {
        StepNotRaised(s, steps[0].0, steps[0].1, t);
        NeverRaisedAgain(Step(s, steps[0].0, steps[0].1), steps[1..], t);
      } else {
        NeverRaisedAgain(s, steps[1..], t);
      }
    }
  }

  lemma StepNotRaised(s: State, u: nat, a: Action, t: nat)
    requires Enabled(s, u, a) && t < |s.threads| && 0 < s.threads[t].slot && s.threads[t].prio <= s.threads[t].slot
    ensures var r := Step(s, u, a);
            t < |r.threads| && r.threads[t].slot == s.threads[t].slot && r.threads[t].prio <= s.threads[t].slot
  {
  }

  // ----- A call of one thread, run on alone

  /** The thread t makes a call and goes on n steps. */
  function CallOf(t: nat, a: Action, n: nat): seq<(nat, Action)> {
    [(t, a)] + Ahead(t, n)
  }

  function Ahead(t: nat, n: nat): seq<(nat, Action)> {
    if n == 0 then [] else [(t, Proceed)] + Ahead(t, n - 1)
  }

  lemma GoesAhead(s: State, t: nat, n: nat, r: State)
    requires n > 0 && Enabled(s, t, Proceed) && r == Step(s, t, Proceed)
    ensures Run(s, Ahead(t, n)) == Run(r, Ahead(t, n - 1))
  {
    assert Ahead(t, n)[1..] == Ahead(t, n - 1);
  }

  /** The thread t stands at a place of a call for the lock l, and the rest is as it was. */
  ghost predicate Moved(s: State, r: State, t: nat, at: Place) {
    && t < |s.threads| == |r.threads| && r.locks == s.locks && r.threads[t].at == at && r.threads[t].depth == s.threads[t].depth
    && forall u :: 0 <= u < |s.threads| && u != t ==> r.threads[u] == s.threads[u]
  }

  lemma TryChecks(s: State, t: nat, l: nat, n: nat, m: State)
    requires Inv(s) && t < |s.threads| && l < |s.locks| && s.threads[t].at.Outside? && s.locks[l].owner != Some(t)
    requires m == Step(Step(s, t, CallTry(l)), t, Proceed)
    ensures Run(s, CallOf(t, CallTry(l), n + 1)) == Run(m, Ahead(t, n)) && Moved(s, m, t, TryWait(l)) && Inv(m)
  {
    var c := Step(s, t, CallTry(l));
    StepKeeps(s, t, CallTry(l));
    StepKeeps(c, t, Proceed);
    assert CallOf(t, CallTry(l), n + 1)[1..] == Ahead(t, n + 1);
    GoesAhead(c, t, n + 1, m);
  }

  /** The thread is inside, one deeper, and nothing in a call. */
  ghost predicate Entered(s: State, r: State, t: nat, l: nat) {
    && t < |s.threads| == |r.threads| && l < |s.locks| == |r.locks| && l < |s.threads[t].depth|
    && r.threads[t].at.Outside? && r.threads[t].depth == s.threads[t].depth[l := s.threads[t].depth[l] + 1]
    && r.locks[l].owner == Some(t) && r.locks[l].cnt == r.threads[t].depth[l] && !r.locks[l].free
  }

  lemma ComesIn(s: State, t: nat, l: nat, r: State)
    requires Inv(s) && t < |s.threads| && l < |s.locks| && s.threads[t].at == Own(l) && r == Run(s, Ahead(t, 2))
    ensures Entered(s, r, t, l)
  {
    assert ThreadOk(s.threads[t], |s.locks|) && Agree(s, t, l) && TokenOk(s.locks[l], |s.threads|);
    var m := Step(s, t, Proceed);
    GoesAhead(s, t, 2, m);
    GoesAhead(m, t, 1, Step(m, t, Proceed));
  }

  lemma TryEnters(s: State, t: nat, l: nat, r: State)
    requires Inv(s) && t < |s.threads| && l < |s.locks| && s.threads[t].at == TryWait(l) && s.locks[l].free
    requires r == Run(s, Ahead(t, 4))
    ensures Entered(s, r, t, l)
  {
    assert ThreadOk(s.threads[t], |s.locks|);
    var m := Step(s, t, Proceed);
    StepKeeps(s, t, Proceed);
    GoesAhead(s, t, 4, m);
    var o := Step(m, t, Proceed);
    StepKeeps(m, t, Proceed);
    GoesAhead(m, t, 3, o);
    ComesIn(o, t, l, r);
  }

  lemma LockEnters(s: State, t: nat, l: nat, r: State)
    requires Inv(s) && t < |s.threads| && l < |s.locks| && s.threads[t].at == LockRaise(l) && s.locks[l].free
    requires r == Run(s, Ahead(t, 4))
    ensures Entered(s, r, t, l)
  {
    assert ThreadOk(s.threads[t], |s.locks|);
    var m := Step(s, t, Proceed);
    StepKeeps(s, t, Proceed);
    GoesAhead(s, t, 4, m);
    var o := Step(m, t, Proceed);
    StepKeeps(m, t, Proceed);
    GoesAhead(m, t, 3, o);
    ComesIn(o, t, l, r);
  }

  /** `os_mlock_lock` of a free lock ends inside it. */
  lemma LockOfFree(s: State, t: nat, l: nat, r: State)
    requires Inv(s) && t < |s.threads| && l < |s.locks| && s.threads[t].at.Outside? && s.locks[l].free
    requires r == Run(s, CallOf(t, CallLock(l), 5))
    ensures Entered(s, r, t, l) && s.threads[t].depth[l] == 0
  {
    assert Agree(s, t, l) && TokenOk(s.locks[l], |s.threads|);
    var c := Step(s, t, CallLock(l));
    StepKeeps(s, t, CallLock(l));
    assert CallOf(t, CallLock(l), 5)[1..] == Ahead(t, 5);
    var m := Step(c, t, Proceed);
    StepKeeps(c, t, Proceed);
    GoesAhead(c, t, 5, m);
    LockEnters(m, t, l, r);
  }

  /** `os_mlock_lock` and `os_mlock_trylock` of a lock that the thread is inside: one deeper. */
  lemma EntersAgain(s: State, t: nat, l: nat, a: Action, r: State)
    requires Inv(s) && t < |s.threads| && l < |s.locks| && s.threads[t].at.Outside? && s.locks[l].owner == Some(t)
    requires (a == CallLock(l) || a == CallTry(l)) && r == Run(s, CallOf(t, a, 1))
    ensures Entered(s, r, t, l)
  {
    assert Agree(s, t, l) && TokenOk(s.locks[l], |s.threads|);
    var c := Step(s, t, a);
    StepKeeps(s, t, a);
    assert CallOf(t, a, 1)[1..] == Ahead(t, 1);
    GoesAhead(c, t, 1, Step(c, t, Proceed));
  }

  lemma GoesOut(s: State, t: nat, l: nat, r: State)
    requires Inv(s) && t < |s.threads| && l < |s.locks| && s.threads[t].at == CountDown(l) && r == Run(s, Ahead(t, 3))
    ensures t < |r.threads| && r.threads[t].at.Outside? && r.threads[t].depth == s.threads[t].depth
    ensures l < |r.locks| && r.locks[l] == s.locks[l].(free := true, token := None)
  {
    assert ThreadOk(s.threads[t], |s.locks|);
    var m := Step(s, t, Proceed);
    GoesAhead(s, t, 3, m);
    var o := Step(m, t, Proceed);
    GoesAhead(m, t, 2, o);
    GoesAhead(o, t, 1, Step(o, t, Proceed));
  }

  /** `os_mlock_unlock` leaves the lock by one; the last time the lock is free for others. */
  lemma UnlockLeaves(s: State, t: nat, l: nat, r: State)
    requires Inv(s) && t < |s.threads| && l < |s.locks| && s.threads[t].at.Outside? && s.locks[l].owner == Some(t)
    requires r == Run(s, CallOf(t, CallUnlock(l), if s.locks[l].cnt == 1 then 4 else 1))
    ensures t < |r.threads| && r.threads[t].at.Outside? && l < |s.threads[t].depth| && s.threads[t].depth[l] > 0 && l < |r.locks|
    ensures r.threads[t].depth == s.threads[t].depth[l := s.threads[t].depth[l] - 1]
    ensures if s.threads[t].depth[l] == 1 then r.locks[l].free && r.locks[l].owner == None else r.locks[l].owner == Some(t)
  {
    assert Agree(s, t, l);
    var c := Step(s, t, CallUnlock(l));
    StepKeeps(s, t, CallUnlock(l));
    var n := if s.locks[l].cnt == 1 then 4 else 1;
    assert CallOf(t, CallUnlock(l), n)[1..] == Ahead(t, n);
    var m := Step(c, t, Proceed);
    StepKeeps(c, t, Proceed);
    GoesAhead(c, t, n, m);
    if s.locks[l].cnt == 1 { GoesOut(m, t, l, r); }
  }

  /** `os_mlock_trylock` of a free lock ends inside it, ... */
  lemma TryOfFree(s: State, t: nat, l: nat, r: State)
    requires Inv(s) && t < |s.threads| && l < |s.locks| && s.threads[t].at.Outside? && s.locks[l].free
    requires r == Run(s, CallOf(t, CallTry(l), 5))
    ensures Entered(s, r, t, l) && s.threads[t].depth[l] == 0
  {
    assert Agree(s, t, l) && TokenOk(s.locks[l], |s.threads|);
    var m := Step(Step(s, t, CallTry(l)), t, Proceed);
    TryChecks(s, t, l, 4, m);
    TryEnters(m, t, l, r);
  }

  /** ... and of a lock that another thread has, outside, with nothing changed. */
  lemma TryOfTaken(s: State, t: nat, l: nat, r: State)
    requires Inv(s) && t < |s.threads| && l < |s.locks| && s.threads[t].at.Outside? && !s.locks[l].free
    requires s.locks[l].owner != Some(t) && r == Run(s, CallOf(t, CallTry(l), 2))
    ensures r == s
  {
    var m := Step(Step(s, t, CallTry(l)), t, Proceed);
    TryChecks(s, t, l, 1, m);
    var e := Step(m, t, Proceed);
    GoesAhead(m, t, 1, e);
    assert e.threads == s.threads;
  }

  /** One thread and one lock, and nobody in a call. */
  function Alone(ceiling: nat, inside: bool, prio: nat, slot: nat): State {
    var n := if inside then 1 else 0;
    State([Lock(!inside, if inside then Some(0) else None, n, ceiling, if inside then Some(0) else None)],
          [Thread(Outside, n, prio, slot, [n])])
  }

  /** ... and the one thread at a place in a call. */
  function AloneAt(at: Place, ceiling: nat, free: bool, owner: bool, count: int, prio: nat, slot: nat): State {
    var n := if owner then 1 else 0;
    State([Lock(free, if owner then Some(0) else None, n, ceiling, if free then None else Some(0))],
          [Thread(at, count, prio, slot, [n])])
  }

  function Then(a: Action, n: nat, rest: seq<(nat, Action)>): seq<(nat, Action)> {
    if n == 0 then rest else [(0, a)] + Then(a, n - 1, rest)
  }

  lemma Turn(s: State, a: Action, n: nat, rest: seq<(nat, Action)>, r: State)
    requires n > 0 && Enabled(s, 0, a) && r == Step(s, 0, a)
    ensures Run(s, Then(a, n, rest)) == Run(r, Then(a, n - 1, rest))
  {
    var steps := Then(a, n, rest);
    assert steps[0] == (0, a) && steps[1..] == Then(a, n - 1, rest);
  }

  function Lock1(rest: seq<(nat, Action)>): seq<(nat, Action)> {
    Then(CallLock(0), 1, Then(Proceed, 5, rest))
  }

  function Unlock1(rest: seq<(nat, Action)>): seq<(nat, Action)> {
    Then(CallUnlock(0), 1, Then(Proceed, 4, rest))
  }

  lemma Coming(ceiling: nat, prio: nat, slot: nat, rest: seq<(nat, Action)>)
    ensures var th := Raise(Thread(Outside, 0, prio, slot, [0]), ceiling);
            Run(Alone(ceiling, false, prio, slot), Lock1(rest))
            == Run(AloneAt(LockWait(0), ceiling, true, false, 0, th.prio, th.slot), Then(Proceed, 3, rest))
  {
    var th := Raise(Thread(Outside, 0, prio, slot, [0]), ceiling);
    Turn(Alone(ceiling, false, prio, slot), CallLock(0), 1, Then(Proceed, 5, rest),
         AloneAt(LockCheck(0), ceiling, true, false, 0, prio, slot));
    Turn(AloneAt(LockCheck(0), ceiling, true, false, 0, prio, slot), Proceed, 5, rest,
         AloneAt(LockRaise(0), ceiling, true, false, 0, prio, slot));
    Turn(AloneAt(LockRaise(0), ceiling, true, false, 0, prio, slot), Proceed, 4, rest,
         AloneAt(LockWait(0), ceiling, true, false, 0, th.prio, th.slot));
  }

  lemma Entering(ceiling: nat, prio: nat, slot: nat, rest: seq<(nat, Action)>)
    ensures Run(AloneAt(LockWait(0), ceiling, true, false, 0, prio, slot), Then(Proceed, 3, rest))
            == Run(Alone(ceiling, true, prio, slot), rest)
  {
    Turn(AloneAt(LockWait(0), ceiling, true, false, 0, prio, slot), Proceed, 3, rest,
         AloneAt(Own(0), ceiling, false, false, 0, prio, slot));
    assert [0][0 := 1] == [1];
    Turn(AloneAt(Own(0), ceiling, false, false, 0, prio, slot), Proceed, 2, rest,
         AloneAt(CountUp(0), ceiling, false, true, 0, prio, slot));
    Turn(AloneAt(CountUp(0), ceiling, false, true, 0, prio, slot), Proceed, 1, rest, Alone(ceiling, true, prio, slot));
  }

  lemma Leaving(ceiling: nat, prio: nat, slot: nat, rest: seq<(nat, Action)>)
    ensures Run(Alone(ceiling, true, prio, slot), Unlock1(rest))
            == Run(AloneAt(CountDown(0), ceiling, false, false, 1, prio, slot), Then(Proceed, 3, rest))
  {
    Turn(Alone(ceiling, true, prio, slot), CallUnlock(0), 1, Then(Proceed, 4, rest),
         AloneAt(UnlockCheck(0), ceiling, false, true, 1, prio, slot));
    assert [1][0 := 0] == [0];
    Turn(AloneAt(UnlockCheck(0), ceiling, false, true, 1, prio, slot), Proceed, 4, rest,
         AloneAt(CountDown(0), ceiling, false, false, 1, prio, slot));
  }

  lemma Restoring(ceiling: nat, prio: nat, slot: nat, rest: seq<(nat, Action)>)
    ensures Run(AloneAt(CountDown(0), ceiling, false, false, 1, prio, slot), Then(Proceed, 3, rest))
            == Run(Alone(ceiling, false, slot, slot), rest)
  {
    Turn(AloneAt(CountDown(0), ceiling, false, false, 1, prio, slot), Proceed, 3, rest,
         AloneAt(Restore(0), ceiling, false, false, 0, prio, slot));
    Turn(AloneAt(Restore(0), ceiling, false, false, 0, prio, slot), Proceed, 2, rest,
         AloneAt(Signal(0), ceiling, false, false, 0, slot, slot));
    Turn(AloneAt(Signal(0), ceiling, false, false, 0, slot, slot), Proceed, 1, rest, Alone(ceiling, false, slot, slot));
  }

  lemma Locked(ceiling: nat, prio: nat, slot: nat, rest: seq<(nat, Action)>, th: Thread)
    requires th == Raise(Thread(Outside, 0, prio, slot, [0]), ceiling)
    ensures Run(Alone(ceiling, false, prio, slot), Lock1(rest)) == Run(Alone(ceiling, true, th.prio, th.slot), rest)
  {
    Coming(ceiling, prio, slot, rest);
    Entering(ceiling, th.prio, th.slot, rest);
  }

  lemma Unlocked(ceiling: nat, prio: nat, slot: nat, rest: seq<(nat, Action)>)
    ensures Run(Alone(ceiling, true, prio, slot), Unlock1(rest)) == Run(Alone(ceiling, false, slot, slot), rest)
  {
    Leaving(ceiling, prio, slot, rest);
    Restoring(ceiling, prio, slot, rest);
  }

  /** The first time a thread is inside the lock it runs at the ceiling at least; once it has left
      and locks again, it is inside with its own priority only, which may be below the ceiling. */
  lemma HolderBelowCeiling(prio: nat, ceiling: nat, rest: seq<(nat, Action)>)
    requires prio > 0
    ensures var s := Alone(ceiling, false, prio, 0);
            && Initial(s)
            && Run(s, Lock1(rest)) == Run(Alone(ceiling, true, if prio < ceiling then ceiling else prio, prio), rest)
            && Run(s, Lock1(Unlock1(Lock1(rest)))) == Run(Alone(ceiling, true, prio, prio), rest)
  {
    var th := Raise(Thread(Outside, 0, prio, 0, [0]), ceiling);
    Locked(ceiling, prio, 0, rest, th);
    Locked(ceiling, prio, 0, Unlock1(Lock1(rest)), th);
    Unlocked(ceiling, th.prio, th.slot, Lock1(rest));
    Locked(ceiling, prio, prio, rest, Thread(Outside, 0, prio, prio, [0]));
  }
}
