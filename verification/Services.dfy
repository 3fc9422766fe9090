/**
 The life of services and their threads (src/svc/svc_services.c, src/svc/svc_threads.c) as steps
 of concurrent callers, threads and reapers. A step is a section under the services mutex or
 the threads mutex, or what lies between two; a call of `svc_service_start` keeps the services
 mutex over three of them.
 */
module Services {
  import opened Common

  const DISABLED: int := -1
  const STOPPED: int := 0
  const STOPPING: int := 1
  const STARTING: int := 2
  const STARTED: int := 3
  const RESIDENT: int := 4

  /** `pf` says that the thread object has a function. No code reads the three counts: threads that
      were created and have not begun, threads that run, and completion callbacks still to
      come of threads that were reaped. */
  datatype Service = Service(status: int, run: bool, ctrl: bool, pf: bool, created: nat, running: nat, awaiting: nat)

  /** Where the one call of start is that has the services mutex. */
  datatype Phase = Creating | Settling(created: bool)

  datatype Holder = Holder(service: nat, phase: Phase)

  datatype State = State(
    services: seq<Service>,
    threads: seq<nat>,       // the services whose threads are listed as running
    complete: seq<nat>,      // ... and those to be reaped
    listCount: int,
    holder: Option<Holder>)  // the services mutex, while a start is under way

  datatype Op =
    | Start(service: nat, reply: int, accepted: bool)
    | Create(ok: bool)
    | Settle
    | Stop(service: nat, reply: int, accepted: bool)
    | Begin(service: nat)
    | End(service: nat)
    | Reap
    | Complete(service: nat)

  /** `_service_status`: the control function may reply with a status of its own. */
  function StatusOf(sv: Service, reply: int): int {
    if sv.status > STOPPED && sv.ctrl && reply >= 0 then reply else sv.status
  }

  predicate Enabled(s: State, op: Op) {
    match op
    case Start(i, _, _) => i < |s.services| && s.holder.None?
    case Create(_) => s.holder.Some? && s.holder.value.phase.Creating? && s.holder.value.service < |s.services|
    case Settle => s.holder.Some? && s.holder.value.phase.Settling? && s.holder.value.service < |s.services|
    case Stop(i, _, _) => i < |s.services| && s.holder.None?
    case Begin(i) => i < |s.services| && s.holder.None? && s.services[i].created > 0
    case End(i) => i < |s.services| && s.services[i].running > 0
    case Reap => s.complete != [] && s.complete[0] < |s.services|
    case Complete(i) => i < |s.services| && s.holder.None? && s.services[i].awaiting > 0
  }

  function With(s: State, i: nat, sv: Service): State
    requires i < |s.services|
  {
    s.(services := s.services[i := sv])
  }

  /** `svc_service_start` and `_service_start` would start the service. */
  predicate MayStart(sv: Service, reply: int) {
    && sv.ctrl && StatusOf(sv, reply) == STOPPED
    && (sv.run ==> !sv.pf)  // svc_threads_is_active
  }

  /** `svc_service_start` up to the creation of the thread. `accepted` is the answer of the control
      function to the start. */
  function StartCall(s: State, i: nat, reply: int, accepted: bool): State
    requires i < |s.services|
  {
    var sv := s.services[i];
    if !MayStart(sv, reply) || !accepted then s
    else if !sv.run then With(s, i, sv.(status := STARTED))
    else With(s, i, sv.(pf := true)).(holder := Some(Holder(i, Creating)))
  }

  /** The section of `svc_threads_create` under the threads mutex. */
  function CreateThread(s: State, i: nat, ok: bool): State
    requires i < |s.services|
  {
    var sv := s.services[i];
    if ok then
      With(s, i, sv.(created := sv.created + 1)).(
        threads := s.threads + [i], listCount := s.listCount + 1, holder := Some(Holder(i, Settling(true))))
    else With(s, i, sv.(pf := false)).(holder := Some(Holder(i, Settling(false))))
  }

  /** `svc_service_stop`; `accepted` is the answer of the control function to the stop. */
  function StopCall(s: State, i: nat, reply: int, accepted: bool): State
    requires i < |s.services|
  {
    var sv := s.services[i];
    if !sv.ctrl || StatusOf(sv, reply) < STARTING then s
    else if !sv.run then With(s, i, sv.(status := STOPPED))
    else With(s, i, sv.(status := if accepted then STOPPING else STARTED))
  }

  /** `svc_threads_terminate`, called by the thread of the service. */
  function Terminate(s: State, i: nat): State
    requires i < |s.services| && s.services[i].running > 0
  {
    var sv := s.services[i];
    var t := With(s, i, sv.(running := sv.running - 1));
    if i in s.threads then t.(threads := Without(s.threads, i), complete := [i] + s.complete, listCount := s.listCount - 1) else t
  }

  function Step(s: State, op: Op): State
    requires Enabled(s, op)
  {
    match op
    case Start(i, reply, accepted) => StartCall(s, i, reply, accepted)
    case Create(ok) => CreateThread(s, s.holder.value.service, ok)
    case Settle =>
      var i := s.holder.value.service;
      With(s, i, s.services[i].(status := if s.holder.value.phase.created then STARTING else STOPPED)).(holder := None)
    case Stop(i, reply, accepted) => StopCall(s, i, reply, accepted)
    case Begin(i) =>
      var sv := s.services[i];
      With(s, i, sv.(status := STARTED, created := sv.created - 1, running := sv.running + 1))
    case End(i) => Terminate(s, i)
    case Reap =>
      var i := s.complete[0];
      With(s, i, s.services[i].(pf := false, awaiting := s.services[i].awaiting + 1)).(complete := s.complete[1..])
    case Complete(i) =>
      var sv := s.services[i];
      With(s, i, sv.(status := STOPPED, awaiting := sv.awaiting - 1))
  }

  // ----- The invariant

  function Live(sv: Service): nat {
    sv.created + sv.running
  }

  /** Threads of a service from their creation to their completion callback. */
  ghost function Lives(s: State, i: nat): nat
    requires i < |s.services|
  {
    Live(s.services[i]) + multiset(s.complete)[i] + s.services[i].awaiting
  }

  predicate Busy(s: State, i: nat) {
    s.holder.Some? && s.holder.value.service == i
  }

  predicate OnlyBusy(s: State, i: nat) {
    s.holder.Some? ==> s.holder.value.service == i
  }

  ghost predicate ServiceOk(s: State, i: nat)
    requires i < |s.services|
  {
    var sv := s.services[i];
    && Lives(s, i) <= 1 && multiset(s.threads)[i] == Live(sv)
    && (sv.pf <==> multiset(s.threads)[i] + multiset(s.complete)[i] == 1 || (Busy(s, i) && s.holder.value.phase.Creating?))
    && (if Busy(s, i) then
          sv.status == STOPPED && sv.run && sv.running == 0
          && Lives(s, i) == sv.created == (if s.holder.value.phase == Settling(true) then 1 else 0)
        else if sv.run then
          (if Lives(s, i) == 1 then sv.status in {STOPPING, STARTING, STARTED} else sv.status <= STOPPED)
        else Lives(s, i) == 0)
  }

  ghost predicate Whole(s: State) {
    && (forall i :: 0 <= i < |s.services| ==> ServiceOk(s, i))
    && (forall i :: i in s.threads || i in s.complete ==> i < |s.services|)
    && (s.holder.Some? ==> s.holder.value.service < |s.services|)
    && s.listCount == |s.threads|
  }

  /** The quantifier keeps proofs from taking the invariant apart where they only hand it on. */
  ghost predicate Inv(s: State) {
    exists r :: r == s && Whole(r)
  }

  /** The control function calls a service stopped and accepts its start, though a thread of it was
      reaped and has not completed: nothing is active, and the status is not that of a stopped one. */
  predicate Harmful(sv: Service, reply: int, accepted: bool) {
    reply == STOPPED && accepted && sv.run && sv.ctrl && !sv.pf && sv.status > STOPPED
  }

  predicate HarmfulOp(s: State, op: Op)
    requires Enabled(s, op)
  {
    op.Start? && Harmful(s.services[op.service], op.reply, op.accepted)
  }

  /** The lists hold the same but for one service. */
  ghost predicate SameBut(a: seq<nat>, b: seq<nat>, i: nat) {
    forall j :: j != i ==> multiset(a)[j] == multiset(b)[j]
  }

  /** A step that changes one service, and the lists only for it. */
  lemma OthersKept(s: State, r: State, i: nat)
    requires Inv(s) && i < |s.services| == |r.services|
    requires forall j :: 0 <= j < |s.services| && j != i ==> r.services[j] == s.services[j]
    requires SameBut(s.threads, r.threads, i) && SameBut(s.complete, r.complete, i)
    requires r.holder == s.holder || (OnlyBusy(s, i) && OnlyBusy(r, i))
    requires ServiceOk(r, i) && r.listCount == |r.threads|
    ensures Inv(r)
  {
    forall j | 0 <= j < |r.services| ensures ServiceOk(r, j) {
      if j != i { assert ServiceOk(s, j); }
    }
    forall j | j in r.threads || j in r.complete ensures j < |r.services| {
      if j != i {
        assert multiset(r.threads)[j] > 0 || multiset(r.complete)[j] > 0;
        assert multiset(s.threads)[j] > 0 || multiset(s.complete)[j] > 0;
        assert j in s.threads || j in s.complete;
      }
    }
    assert Whole(r);
  }

  /** What a start that does harm meets: exactly a completion that is still to come. */
  lemma HarmfulIsAwaiting(s: State, i: nat, reply: int, accepted: bool)
    requires Inv(s) && i < |s.services| && !Busy(s, i)
    ensures Harmful(s.services[i], reply, accepted) <==>
            reply == STOPPED && accepted && s.services[i].run && s.services[i].ctrl && s.services[i].awaiting == 1
  {
    assert ServiceOk(s, i);
  }

  lemma NotWholeWithout(r: State, i: nat)
    requires i < |r.services| && !ServiceOk(r, i)
    ensures !Inv(r)
  {
  }

  lemma HarmlessStartKeeps(s: State, i: nat, reply: int, accepted: bool, r: State)
    requires Inv(s) && Enabled(s, Start(i, reply, accepted)) && r == StartCall(s, i, reply, accepted)
    requires !Harmful(s.services[i], reply, accepted)
    ensures Inv(r)
  {
    assert ServiceOk(s, i);
    if r != s {
      StartOk(s, i, reply, accepted, r);
      OthersKept(s, r, i);
    }
  }

  lemma StartOk(s: State, i: nat, reply: int, accepted: bool, r: State)
    requires i < |s.services| && s.holder.None? && ServiceOk(s, i) && r == StartCall(s, i, reply, accepted) != s
    requires !Harmful(s.services[i], reply, accepted)
    ensures ServiceOk(r, i)
  {
    var sv := s.services[i];
    assert !Busy(s, i);
    if sv.run {
      assert sv.status == STOPPED && Lives(s, i) == 0;
      assert r.services[i] == sv.(pf := true) && r.holder == Some(Holder(i, Creating));
    } else {
      assert Lives(s, i) == 0;
      assert r.services[i] == sv.(status := STARTED) && !Busy(r, i);
    }
  }

  lemma HarmfulStartIsSeen(s: State, i: nat, r: State)
    requires Inv(s) && Enabled(s, Start(i, STOPPED, true)) && r == StartCall(s, i, STOPPED, true)
    requires Harmful(s.services[i], STOPPED, true)
    ensures !Inv(r)
  {
    assert Busy(r, i) && r.services[i].status > STOPPED;
    NotWholeWithout(r, i);
  }

  /** A start keeps the invariant exactly if it does no harm, whatever the control function answers. */
  lemma StartKeepsExactly(s: State, i: nat, reply: int, accepted: bool)
    requires Inv(s) && Enabled(s, Start(i, reply, accepted))
    ensures Inv(StartCall(s, i, reply, accepted)) <==> !Harmful(s.services[i], reply, accepted)
  {
    var r := StartCall(s, i, reply, accepted);
    if Harmful(s.services[i], reply, accepted) {
      HarmfulStartIsSeen(s, i, r);
    } else {
      HarmlessStartKeeps(s, i, reply, accepted, r);
    }
  }

  lemma CreateKeeps(s: State, ok: bool)
    requires Inv(s) && Enabled(s, Create(ok))
    ensures Inv(Step(s, Create(ok)))
  {
    var i := s.holder.value.service;
    var r := Step(s, Create(ok));
    assert ServiceOk(s, i);
    ListedCounts(s.threads, i);
    CreateOk(s, ok, i, r);
    CreateFrame(s, ok, i, r);
    OthersKept(s, r, i);
  }

  lemma CreateOk(s: State, ok: bool, i: nat, r: State)
    requires Enabled(s, Create(ok)) && i == s.holder.value.service && ServiceOk(s, i) && r == Step(s, Create(ok))
    requires multiset(s.threads + [i]) == multiset(s.threads) + multiset{i}
    ensures ServiceOk(r, i)
  {
  }

  lemma CreateFrame(s: State, ok: bool, i: nat, r: State)
    requires Enabled(s, Create(ok)) && i == s.holder.value.service && r == Step(s, Create(ok)) && s.listCount == |s.threads|
    ensures |r.services| == |s.services| && forall j :: 0 <= j < |s.services| && j != i ==> r.services[j] == s.services[j]
    ensures r.threads == (if ok then s.threads + [i] else s.threads) && r.complete == s.complete && r.listCount == |r.threads|
    ensures OnlyBusy(s, i) && OnlyBusy(r, i)
  {
  }

  lemma ListedCounts(list: seq<nat>, i: nat)
    ensures multiset(list + [i]) == multiset(list) + multiset{i} && multiset([i] + list) == multiset(list) + multiset{i}
    ensures list != [] ==> multiset(list[1..]) + multiset{list[0]} == multiset(list)
    ensures SameBut(list, list + [i], i) && SameBut(list, [i] + list, i)
    ensures list != [] ==> SameBut(list, list[1..], list[0])
  {
    if list != [] { assert list == [list[0]] + list[1..]; }
  }

  lemma SettleKeeps(s: State)
    requires Inv(s) && Enabled(s, Settle)
    ensures Inv(Step(s, Settle))
  {
    var i := s.holder.value.service;
    assert ServiceOk(s, i);
    OthersKept(s, Step(s, Settle), i);
  }

  lemma StopKeeps(s: State, i: nat, reply: int, accepted: bool)
    requires Inv(s) && Enabled(s, Stop(i, reply, accepted))
    ensures Inv(StopCall(s, i, reply, accepted))
  {
    assert ServiceOk(s, i);
    var r := StopCall(s, i, reply, accepted);
    if r != s { OthersKept(s, r, i); }
  }

  lemma BeginKeeps(s: State, i: nat)
    requires Inv(s) && Enabled(s, Begin(i))
    ensures Inv(Step(s, Begin(i)))
  {
    assert ServiceOk(s, i);
    OthersKept(s, Step(s, Begin(i)), i);
  }

  lemma EndKeeps(s: State, i: nat)
    requires Inv(s) && Enabled(s, End(i))
    ensures Inv(Step(s, End(i)))
  {
    assert ServiceOk(s, i);
    assert i in s.threads && !Busy(s, i);
    WithoutCounts(s.threads, i);
    ListedCounts(s.complete, i);
    var r := Step(s, End(i));
    EndOk(s, i, r);
    OthersKept(s, r, i);
  }

  lemma EndOk(s: State, i: nat, r: State)
    requires Inv(s) && Enabled(s, End(i)) && ServiceOk(s, i) && !Busy(s, i) && r == Step(s, End(i))
    requires i in s.threads && multiset(r.threads) == multiset(s.threads) - multiset{i}
    requires multiset(r.complete) == multiset(s.complete) + multiset{i}
    ensures ServiceOk(r, i)
  {
  }

  lemma ReapKeeps(s: State)
    requires Inv(s) && Enabled(s, Reap)
    ensures Inv(Step(s, Reap))
  {
    var i := s.complete[0];
    var r := Step(s, Reap);
    assert ServiceOk(s, i) && i in s.complete;
    ListedCounts(s.complete, i);
    assert multiset(r.complete) == multiset(s.complete) - multiset{i};
    OthersKept(s, r, i);
  }

  lemma CompleteKeeps(s: State, i: nat)
    requires Inv(s) && Enabled(s, Complete(i))
    ensures Inv(Step(s, Complete(i)))
  {
    assert ServiceOk(s, i);
    OthersKept(s, Step(s, Complete(i)), i);
  }

  lemma StepKeeps(s: State, op: Op)
    requires Inv(s) && Enabled(s, op) && !HarmfulOp(s, op)
    ensures Inv(Step(s, op))
  {
    match op
    case Start(i, reply, accepted) => StartKeepsExactly(s, i, reply, accepted);
    case Create(ok) => CreateKeeps(s, ok);
    case Settle => SettleKeeps(s);
    case Stop(i, reply, accepted) => StopKeeps(s, i, reply, accepted);
    case Begin(i) => BeginKeeps(s, i);
    case End(i) => EndKeeps(s, i);
    case Reap => ReapKeeps(s);
    case Complete(i) => CompleteKeeps(s, i);
  }

  // ----- Runs

  /** The services at the start, stopped or disabled, without threads. */
  predicate Initial(s: State) {
    && s.threads == [] && s.complete == [] && s.listCount == 0 && s.holder.None?
    && forall i :: 0 <= i < |s.services| ==> Idle(s.services[i])
  }

  predicate Idle(sv: Service) {
    sv.status in {STOPPED, DISABLED} && !sv.pf && sv.created == 0 && sv.running == 0 && sv.awaiting == 0
  }

  function Run(s: State, ops: seq<Op>): State
    decreases |ops|
  {
    if ops == [] then s else Run(if Enabled(s, ops[0]) then Step(s, ops[0]) else s, ops[1..])
  }

  lemma InitialKeeps(s: State)
    requires Initial(s)
    ensures Inv(s)
  {
    assert Whole(s);
  }

  function Next(s: State, op: Op): State {
    if Enabled(s, op) then Step(s, op) else s
  }

  /** No start on the run does harm. */
  predicate Harmless(s: State, ops: seq<Op>)
    decreases |ops|
  {
    ops != [] ==> (Enabled(s, ops[0]) ==> !HarmfulOp(s, ops[0])) && Harmless(Next(s, ops[0]), ops[1..])
  }

  /** The invariant holds all along a run. */
  ghost predicate AlwaysInv(s: State, ops: seq<Op>)
    decreases |ops|
  {
    Inv(s) && (ops != [] ==> AlwaysInv(Next(s, ops[0]), ops[1..]))
  }

  /** The invariant holds all along a run exactly if no start on it does harm. */
  lemma {:induction false} InvOverRunsExactly(s: State, ops: seq<Op>)
    requires Inv(s)
    ensures AlwaysInv(s, ops) <==> Harmless(s, ops)
    ensures Harmless(s, ops) ==> Inv(Run(s, ops))
    decreases |ops|
  {
    if ops != [] {
      if Enabled(s, ops[0]) {
        if HarmfulOp(s, ops[0]) {
          StartKeepsExactly(s, ops[0].service, ops[0].reply, ops[0].accepted);
        } else {
          StepKeeps(s, ops[0]);
          InvOverRunsExactly(Step(s, ops[0]), ops[1..]);
        }
      } else {
        InvOverRunsExactly(s, ops[1..]);
      }
    }
  }

  /** What is promised of the threads of a service: at most one, counted until its completion
      callback; one in the list of running threads exactly while it is live. While no start of this
      service is under way, `pf` is set exactly while the thread is in one list, and there once, and
      a stopped service has no thread that is live or awaits its completion. */
  ghost predicate ThreadsKept(s: State, i: nat)
    requires i < |s.services|
  {
    var sv := s.services[i];
    && Lives(s, i) <= 1 && multiset(s.threads)[i] == Live(sv) && s.listCount == |s.threads|
    && (!Busy(s, i) ==>
          (sv.pf <==> multiset(s.threads)[i] + multiset(s.complete)[i] == 1)
          && (sv.run && sv.status <= STOPPED ==> Lives(s, i) == 0))
  }

  /** Over every interleaving without a start that does harm. */
  lemma ThreadsOverRuns(s: State, ops: seq<Op>, i: nat)
    requires Initial(s) && Harmless(s, ops) && i < |Run(s, ops).services|
    ensures ThreadsKept(Run(s, ops), i)
  {
    InitialKeeps(s);
    InvOverRunsExactly(s, ops);
    assert ServiceOk(Run(s, ops), i);
  }

  /** A start that does harm breaks the promise before it is over, whether a thread can be created
      for it or not. */
  lemma HarmfulStartBreaks(s: State, i: nat, ok: bool)
    requires Inv(s) && Enabled(s, Start(i, STOPPED, true)) && Harmful(s.services[i], STOPPED, true)
    ensures var r := Run(s, [Start(i, STOPPED, true), Create(ok), Settle]);
            |r.services| == |s.services| && r.holder.None? && !ThreadsKept(r, i)
  {
    HarmfulIsAwaiting(s, i, STOPPED, true);
    assert ServiceOk(s, i);
    var ops := [Start(i, STOPPED, true), Create(ok), Settle];
    var s1 := Step(s, Start(i, STOPPED, true));
    var s2 := Step(s1, Create(ok));
    var s3 := Step(s2, Settle);
    RunFirst(s, ops, s1);
    RunFirst(s1, ops[1..], s2);
    RunFirst(s2, ops[1..][1..], s3);
  }

  /** Where a thread is created, the late completion callback of the first one marks the service
      stopped while the second one is live. */
  lemma HarmfulStartEndsStopped(s: State, i: nat)
    requires Inv(s) && Enabled(s, Start(i, STOPPED, true)) && Harmful(s.services[i], STOPPED, true)
    ensures var r := Run(s, [Start(i, STOPPED, true), Create(true), Settle, Complete(i)]);
            |r.services| == |s.services| && r.holder.None? && r.services[i].status == STOPPED && Live(r.services[i]) == 1
  {
    HarmfulIsAwaiting(s, i, STOPPED, true);
    assert ServiceOk(s, i);
    var ops := [Start(i, STOPPED, true), Create(true), Settle, Complete(i)];
    var s1 := Step(s, Start(i, STOPPED, true));
    assert s1.holder == Some(Holder(i, Creating)) && s1.services[i] == s.services[i].(pf := true);
    var s2 := Step(s1, Create(true));
    var s3 := Step(s2, Settle);
    var s4 := Step(s3, Complete(i));
    RunFirst(s, ops, s1);
    RunFirst(s1, ops[1..], s2);
    RunFirst(s2, ops[1..][1..], s3);
    RunFirst(s3, ops[1..][1..][1..], s4);
  }

  function Alone(status: int, pf: bool, created: nat, running: nat, awaiting: nat): Service {
    Service(status, true, true, pf, created, running, awaiting)
  }

  lemma Turn(s: State, op: Op, rest: seq<Op>, r: State)
    requires Enabled(s, op) && r == Step(s, op) && !HarmfulOp(s, op)
    ensures Run(s, [op] + rest) == Run(r, rest) && (Harmless(s, [op] + rest) <==> Harmless(r, rest))
  {
    assert ([op] + rest)[1..] == rest;
  }

  lemma StartedAlone(rest: seq<Op>, ops: seq<Op>)
    requires ops == [Start(0, -1, true)] + ([Create(true)] + ([Settle] + rest))
    ensures var s, r := State([Alone(STOPPED, false, 0, 0, 0)], [], [], 0, None), State([Alone(STARTING, true, 1, 0, 0)], [0], [], 1, None);
            Run(s, ops) == Run(r, rest) && (Harmless(s, ops) <==> Harmless(r, rest))
  {
    var s := State([Alone(STOPPED, false, 0, 0, 0)], [], [], 0, None);
    var s1 := State([Alone(STOPPED, true, 0, 0, 0)], [], [], 0, Some(Holder(0, Creating)));
    var s2 := State([Alone(STOPPED, true, 1, 0, 0)], [0], [], 1, Some(Holder(0, Settling(true))));
    var r := State([Alone(STARTING, true, 1, 0, 0)], [0], [], 1, None);
    Turn(s, Start(0, -1, true), [Create(true)] + ([Settle] + rest), s1);
    Turn(s1, Create(true), [Settle] + rest, s2);
    Turn(s2, Settle, rest, r);
  }

  lemma ReapedAlone(rest: seq<Op>, ops: seq<Op>)
    requires ops == [Begin(0)] + ([End(0)] + ([Reap] + rest))
    ensures var s, r := State([Alone(STARTING, true, 1, 0, 0)], [0], [], 1, None), State([Alone(STARTED, false, 0, 0, 1)], [], [], 0, None);
            Run(s, ops) == Run(r, rest) && (Harmless(s, ops) <==> Harmless(r, rest))
  {
    var s := State([Alone(STARTING, true, 1, 0, 0)], [0], [], 1, None);
    var s1 := State([Alone(STARTED, true, 0, 1, 0)], [0], [], 1, None);
    var s2 := State([Alone(STARTED, true, 0, 0, 0)], [], [0], 0, None);
    var r := State([Alone(STARTED, false, 0, 0, 1)], [], [], 0, None);
    Turn(s, Begin(0), [End(0)] + ([Reap] + rest), s1);
    Turn(s1, End(0), [Reap] + rest, s2);
    Turn(s2, Reap, rest, r);
  }

  /** A service started, run to its end and reaped, from the start of a run: there a start that does
      harm is possible. */
  lemma HarmfulIsReached(s: State) returns (ops: seq<Op>)
    requires s == State([Alone(STOPPED, false, 0, 0, 0)], [], [], 0, None)
    ensures Initial(s) && Harmless(s, ops)
    ensures var r := Run(s, ops);
            Enabled(r, Start(0, STOPPED, true)) && Harmful(r.services[0], STOPPED, true)
  {
    var none := [];
    var last := [Begin(0)] + ([End(0)] + ([Reap] + none));
    ops := [Start(0, -1, true)] + ([Create(true)] + ([Settle] + last));
    StartedAlone(last, ops);
    ReapedAlone(none, last);
  }

  lemma RunFirst(s: State, ops: seq<Op>, r: State)
    requires ops != [] && Enabled(s, ops[0]) && r == Step(s, ops[0])
    ensures Run(s, ops) == Run(r, ops[1..])
  {
  }
}
