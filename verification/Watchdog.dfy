/**
 The watchdog of src/svc/svc_wdt.c on its handler objects: each call does what the step of the
 state machine says.
 */
module Watchdog {
  import opened WatchdogMachine

  class Handler {
    var flags: bv8
    ghost var misses: nat

    constructor ()
      ensures flags == 0 && misses == 0
    {
      flags, misses := 0, 0;
    }
  }

  ghost function Infos(known: set<Handler>): map<Handler, Info>
    reads known
  {
    map h | h in known :: Info(h.flags, h.misses)
  }

  class Monitor {
    var groups: seq<seq<Handler>>  // the handler stacks, one for each timeout
    var kicks: seq<bool>           // the results of the last passes
    var counter: nat
    var interval: nat
    ghost var known: set<Handler>

    ghost function View(): State<Handler>
      reads this, known
    {
      State(groups, Infos(known), kicks, counter, interval)
    }

    constructor (interval: nat)
      ensures groups == [[], [], []] && kicks == [true, true, true] && counter == 0 && this.interval == interval && known == {}
    {
      groups, kicks, counter := [[], [], []], [true, true, true], 0;
      this.interval := interval;
      known := {};
    }

    /** One handler in the loop of `svc_wdt_process`. */
    method Pass(start: Handler) returns (withheld: bool)
      requires start in known
      modifies start
      ensures Infos(known) == old(Infos(known))[start := Passed(old(Infos(known))[start])]
      ensures withheld == Overdue(old(Infos(known))[start])
    {
      ghost var info := Infos(known);
      withheld := false;
      if start.flags & ACTIVE != 0 {
        if start.flags & KICKED != 0 {
          start.flags := start.flags & !(KICKED | FLAGGED | REPORTED);
          start.misses := 0;
        } else {
          start.misses := start.misses + 1;
          if start.flags & FLAGGED != 0 {
            if start.flags & REPORTED == 0 {
              start.flags := start.flags | REPORTED;
            }
            withheld := true;
          } else {
            start.flags := start.flags | FLAGGED;
          }
        }
      }
      PassedFlags(info[start]);
      assert Infos(known) == info[start := Passed(info[start])];
    }

    lemma PassedFlags(i: Info)
      ensures i.flags & REPORTED != 0 ==> i.flags | REPORTED == i.flags
    {
    }

    /** `svc_wdt_process`. */
    method Process(g: nat) returns (kick: bool)
      requires Known(View()) && g < GROUPS
      modifies this`kicks, known
      ensures View() == WatchdogMachine.Process(old(View()), g) && kick == kicks[g]
    {
      ghost var group, info := groups[g], Infos(known);
      kick := true;
      var i := 0;
      while i < |groups[g]|
        invariant i <= |group| && unchanged(this)
        invariant InGroup(group, Infos(known))
        invariant PassInfo(group, info) == PassInfo(group[i..], Infos(known))
        invariant PassKick(group, info) == (kick && PassKick(group[i..], Infos(known)))
      {
        var withheld := Pass(groups[g][i]);
        if withheld { kick := false; }
        i := i + 1;
      }
      kicks := kicks[g := kick];
    }

    method ProcessDue(g: nat) returns (kick: bool)
      requires Known(View()) && g < GROUPS && 1 <= interval <= 30
      modifies this`kicks, known
      ensures View() == WatchdogMachine.ProcessDue(old(View()), g) && kick == kicks[g]
    {
      kick := kicks[g];
      if g == 0 || !kicks[g] || counter % ((if g == 1 then 30 else 60) / interval) == 0 {
        kick := Process(g);
      }
    }

    method Count()
      modifies this`counter
      ensures View() == old(View()).(counter := (old(View()).counter + 1) % 0x1_0000_0000)
    {
      counter := (counter + 1) % 0x1_0000_0000;
    }

    /** The passes of a tick. */
    method PassAll() returns (kick: bool)
      requires Known(View()) && 1 <= interval <= 30
      modifies this`kicks, this`counter, known
      ensures View() == Passes(old(View())) && kick == AllKick(View())
    {
      Count();
      var kick10 := ProcessDue(0);
      ghost var s1 := View();
      var kick30 := ProcessDue(1);
      ghost var s2 := View();
      var kick60 := ProcessDue(2);
      assert s1.kick[0] == kicks[0] && s2.kick[1] == kicks[1];
      kick := kick10 && kick30 && kick60;
    }

    /** `svc_wdt_task_cb`; a kick of the hardware returns the interval. */
    method TaskCallback(hardware: nat) returns (kicked: bool)
      requires Known(View()) && 1 <= interval <= 30
      modifies this`kicks, this`counter, this`interval, known
      ensures (View(), kicked) == Tick(old(View()), hardware)
    {
      kicked := PassAll();
      if kicked {
        interval := hardware;
      }
    }

    /** `svc_wdt_activate`. */
    method Activate(handler: Handler)
      requires Known(View()) && handler in known
      modifies handler
      ensures View() == Step(old(View()), DoActivate(handler))
    {
      ghost var info := Infos(known);
      handler.flags, handler.misses := ACTIVE | KICKED, 0;
      assert Infos(known) == info[handler := Activated(info[handler])];
    }

    /** `svc_wdt_deactivate`. */
    method Deactivate(handler: Handler)
      requires Known(View()) && handler in known
      modifies handler
      ensures View() == Step(old(View()), DoDeactivate(handler))
    {
      ghost var info := Infos(known);
      handler.flags, handler.misses := handler.flags & !(ACTIVE | KICKED | FLAGGED | REPORTED), 0;
      assert Infos(known) == info[handler := Deactivated(info[handler])];
    }

    /** `svc_wdt_handler_kick`. */
    method Kick(handler: Handler)
      requires Known(View()) && handler in known
      modifies handler
      ensures View() == Step(old(View()), DoKick(handler))
    {
      ghost var info := Infos(known);
      handler.flags := handler.flags | KICKED;
      handler.flags, handler.misses := handler.flags & !(REPORTED | FLAGGED), 0;
      assert Infos(known) == info[handler := Kicked(info[handler])];
    }

    /** The search of `stack_remove`. */
    method Seek(handler: Handler, g: nat) returns (k: nat)
      requires g < |groups|
      ensures k == IndexOf(groups[g], handler)
    {
      var group := groups[g];
      k := 0;
      while k < |group| && group[k] != handler
        invariant k <= |group| && IndexOf(group, handler) == k + IndexOf(group[k..], handler)
      {
        k := k + 1;
      }
      assert k < |group| ==> group[k..][0] == handler;
    }

    /** `svc_wdt_register`: clearing the handle clears its link, before it is taken from the list. A
        handle in the list of another group would join the two lists. */
    method Register(handler: Handler, g: nat)
      requires Enabled(View(), DoRegister(handler, g))
      modifies this`groups, this`known, handler
      ensures View() == Step(old(View()), DoRegister(handler, g))
    {
      ghost var info := Infos(known);
      var k := Seek(handler, g);
      handler.flags, handler.misses := 0, 0;
      groups := groups[g := [handler] + groups[g][..k]];
      known := known + {handler};
      assert Infos(known) == info[handler := Info(0, 0)];
    }

    /** `svc_wdt_unregister`. */
    method Unregister(handler: Handler, g: nat)
      requires Known(View()) && handler in known && g < GROUPS
      modifies this`groups
      ensures View() == Step(old(View()), DoUnregister(handler, g))
    {
      var k := Seek(handler, g);
      if k < |groups[g]| {
        groups := groups[g := groups[g][..k] + groups[g][k + 1..]];
      }
    }
  }
}
