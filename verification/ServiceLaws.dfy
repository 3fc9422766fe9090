/**
 What the calls for a service do (src/svc/svc_services.c, src/svc/svc_threads.c): its status and its
 thread after each of them, and from a start to the completion.
 */
module ServiceLaws {
  import opened Common
  import opened Services

  /** A stopped service that runs a thread. */
  predicate Startable(s: State, i: nat) {
    && i < |s.services| && s.holder.None?
    && s.services[i].run && s.services[i].ctrl && s.services[i].status == STOPPED
  }

  /** Only the service i is changed, to sv. */
  predicate OnlyChanged(s: State, r: State, i: nat, sv: Service) {
    i < |s.services| && r.services == s.services[i := sv]
  }

  /** `svc_service_start`, with a control function that accepts: the service is starting, with one
      thread to begin, and if no thread can be created stopped as before. */
  lemma Started(s: State, i: nat, reply: int, ok: bool, r: State)
    requires Inv(s) && Startable(s, i) && r == Next(Next(Next(s, Start(i, reply, true)), Create(ok)), Settle)
    ensures r.holder.None? && r.complete == s.complete
    ensures ok ==> OnlyChanged(s, r, i, s.services[i].(status := STARTING, pf := true, created := 1)) && r.threads == s.threads + [i]
    ensures !ok ==> r.services == s.services && r.threads == s.threads
  {
    assert ServiceOk(s, i);
    var c := Next(s, Start(i, reply, true));
    assert c.holder == Some(Holder(i, Creating)) && c.services[i] == s.services[i].(pf := true);
    var m := Next(c, Create(ok));
    assert m.holder == Some(Holder(i, Settling(ok)));
  }

  /** The status of a service as it is seen: its control function is asked for its own while the service
      is not stopped or disabled. */
  function Seen(sv: Service, reply: int): int {
    if sv.status > STOPPED && sv.ctrl && reply >= 0 then reply else sv.status
  }

  /** A start that the control function refuses, or of a service that is not stopped or has a thread,
      changes nothing; so does a stop of one that does not run. */
  lemma NothingDone(s: State, i: nat, reply: int, accepted: bool)
    requires i < |s.services| && s.holder.None?
    ensures !accepted || !s.services[i].ctrl || Seen(s.services[i], reply) != STOPPED || (s.services[i].run && s.services[i].pf) ==>
      Next(s, Start(i, reply, accepted)) == s
    ensures !s.services[i].ctrl || Seen(s.services[i], reply) < STARTING ==> Next(s, Stop(i, reply, accepted)) == s
  {
  }

  /** A service without a thread is started and stopped at once. */
  lemma WithoutThread(s: State, i: nat, reply: int, accepted: bool)
    requires i < |s.services| && s.holder.None? && !s.services[i].run && s.services[i].ctrl
    ensures s.services[i].status == STOPPED ==>
      OnlyChanged(s, Next(s, Start(i, reply, true)), i, s.services[i].(status := STARTED))
    ensures s.services[i].status == STARTED && reply < 0 ==>
      OnlyChanged(s, Next(s, Stop(i, reply, accepted)), i, s.services[i].(status := STOPPED))
  {
  }

  /** `svc_service_stop` of a service that runs, by its own status or by the reply: it is stopping if
      the control function accepts, and started if not. */
  lemma Stopping(s: State, i: nat, reply: int, accepted: bool)
    requires i < |s.services| && s.holder.None? && s.services[i].run && s.services[i].ctrl
    requires s.services[i].status > STOPPED && (if reply >= 0 then reply else s.services[i].status) >= STARTING
    ensures OnlyChanged(s, Next(s, Stop(i, reply, accepted)), i, s.services[i].(status := if accepted then STOPPING else STARTED))
    ensures Next(s, Stop(i, reply, accepted)).threads == s.threads
  {
  }

  /** The thread begins: the service is started. */
  lemma Begun(s: State, i: nat)
    requires i < |s.services| && s.holder.None? && s.services[i].created == 1 && s.services[i].running == 0
    ensures OnlyChanged(s, Next(s, Begin(i)), i, s.services[i].(status := STARTED, created := 0, running := 1))
  {
  }

  /** The thread ends: it goes from the running ones to those to be reaped, ahead of them. */
  lemma ThreadEnds(s: State, i: nat)
    requires Inv(s) && i < |s.services| && s.services[i].running == 1
    ensures var r := Next(s, End(i));
            && OnlyChanged(s, r, i, s.services[i].(running := 0)) && r.holder == s.holder
            && r.threads == Without(s.threads, i) && r.complete == [i] + s.complete && r.listCount == s.listCount - 1
  {
    assert ServiceOk(s, i);
    assert i in s.threads;
  }

  /** The first of them is reaped: its object is free, and its completion is to come, ... */
  lemma ThreadReaped(s: State)
    requires s.complete != [] && s.complete[0] < |s.services|
    ensures var i := s.complete[0]; var r := Next(s, Reap);
            && OnlyChanged(s, r, i, s.services[i].(pf := false, awaiting := s.services[i].awaiting + 1))
            && r.complete == s.complete[1..] && r.threads == s.threads && r.listCount == s.listCount && r.holder == s.holder
  {
  }

  /** ... which marks the service stopped. */
  lemma ThreadCompletes(s: State, i: nat)
    requires i < |s.services| && s.holder.None? && s.services[i].awaiting == 1
    ensures var r := Next(s, Complete(i));
            && OnlyChanged(s, r, i, s.services[i].(status := STOPPED, awaiting := 0))
            && r.threads == s.threads && r.complete == s.complete && r.listCount == s.listCount && r.holder.None?
  {
  }

  /** It ends, is reaped and completes: the service is stopped, with nothing left of its thread. */
  lemma Ended(s: State, i: nat, r: State)
    requires Inv(s) && i < |s.services| && s.holder.None? && s.services[i].running == 1 && s.complete == []
    requires r == Next(Next(Next(s, End(i)), Reap), Complete(i))
    ensures OnlyChanged(s, r, i, s.services[i].(status := STOPPED, pf := false, running := 0))
    ensures r.threads == Without(s.threads, i) && r.complete == [] && r.listCount == |r.threads| && r.holder.None?
  {
    assert ServiceOk(s, i);
    assert i in s.threads;
    var e := Next(s, End(i));
    assert e.complete == [i] && e.services[i].running == 0;
    var p := Next(e, Reap);
    assert p.services[i].awaiting == 1;
  }

  /** From a start to the completion: starting, started, stopping, and then the state is as before. */
  lemma FullCycle(s: State, i: nat, reply: int, a: State, b: State, c: State, d: State)
    requires Inv(s) && Startable(s, i) && s.complete == []
    requires a == Next(Next(Next(s, Start(i, reply, true)), Create(true)), Settle)
    requires b == Next(a, Begin(i)) && c == Next(b, Stop(i, -1, true))
    requires d == Next(Next(Next(c, End(i)), Reap), Complete(i))
    ensures |a.services| == |b.services| == |c.services| == |s.services|
    ensures a.services[i].status == STARTING && b.services[i].status == STARTED && c.services[i].status == STOPPING
    ensures d == s
  {
    CycleStarts(s, i, reply, a);
    CycleEnds(s.services[i], s.threads, a, i, b, c, d);
    CycleRestores(s, i, a, d);
  }

  lemma CycleStarts(s: State, i: nat, reply: int, a: State)
    requires Inv(s) && Startable(s, i) && s.complete == []
    requires a == Next(Next(Next(s, Start(i, reply, true)), Create(true)), Settle)
    ensures Inv(a) && a.holder.None? && a.complete == [] && a.threads == s.threads + [i] && i !in s.threads
    ensures a.services == s.services[i := s.services[i].(status := STARTING, pf := true, created := 1)]
    ensures s.services[i].running == 0 && s.services[i].created == 0 && !s.services[i].pf && s.listCount == |s.threads|
  {
    assert ServiceOk(s, i);
    Started(s, i, reply, true, a);
    CycleKeeps(s, i, reply, a);
  }

  lemma CycleRestores(s: State, i: nat, a: State, d: State)
    requires Startable(s, i) && s.complete == [] && i !in s.threads && s.listCount == |s.threads|
    requires s.services[i].created == 0 && !s.services[i].pf
    requires a.services == s.services[i := s.services[i].(status := STARTING, pf := true, created := 1)]
    requires d.services == a.services[i := s.services[i].(status := STOPPED, pf := false, created := 0)]
    requires d.threads == Without(s.threads + [i], i) && d.complete == [] && d.listCount == |d.threads| && d.holder.None?
    ensures d == s
  {
    LastOut(s.threads, i);
    assert d.services == s.services;
  }

  lemma CycleEnds(sv: Service, threads: seq<nat>, a: State, i: nat, b: State, c: State, d: State)
    requires Inv(a) && i < |a.services| && a.holder.None? && a.complete == [] && a.threads == threads + [i]
    requires a.services[i] == sv.(status := STARTING, pf := true, created := 1) && sv.run && sv.ctrl && sv.running == 0
    requires b == Next(a, Begin(i)) && c == Next(b, Stop(i, -1, true))
    requires d == Next(Next(Next(c, End(i)), Reap), Complete(i))
    ensures |b.services| == |c.services| == |a.services| && b.services[i].status == STARTED && c.services[i].status == STOPPING
    ensures d.services == a.services[i := sv.(status := STOPPED, pf := false, created := 0)]
    ensures d.threads == Without(threads + [i], i) && d.complete == [] && d.listCount == |d.threads| && d.holder.None?
  {
    Begun(a, i);
    StepKeeps(a, Begin(i));
    Stopping(b, i, -1, true);
    StepKeeps(b, Stop(i, -1, true));
    Ended(c, i, d);
  }

  lemma CycleKeeps(s: State, i: nat, reply: int, a: State)
    requires Inv(s) && Startable(s, i) && a == Next(Next(Next(s, Start(i, reply, true)), Create(true)), Settle)
    ensures Inv(a)
  {
    assert ServiceOk(s, i);
    StepKeeps(s, Start(i, reply, true));
    StepKeeps(Next(s, Start(i, reply, true)), Create(true));
    StepKeeps(Next(Next(s, Start(i, reply, true)), Create(true)), Settle);
  }

  lemma {:induction false} LastOut(list: seq<nat>, i: nat)
    requires i !in list
    ensures Without(list + [i], i) == list
  {
    if list != [] {
      LastOut(list[1..], i);
      assert (list + [i])[1..] == list[1..] + [i];
    }
  }
}
