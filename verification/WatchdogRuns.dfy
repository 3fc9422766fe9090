/**
 What the watchdog keeps over every run: the flags tell how often a handler was missed, and
 that decides which ticks kick the hardware.
 */
module WatchdogRuns {
  import opened Common
  import opened WatchdogMachine

  /** The flags of a handler are what its misses say. */
  predicate FlagsTell(i: Info) {
    && (Has(i.flags, KICKED) || !Has(i.flags, ACTIVE) ==> i.misses == 0)
    && (Has(i.flags, FLAGGED) <==> i.misses >= 1)
    && (Has(i.flags, REPORTED) <==> i.misses >= 2)
  }

  ghost predicate Whole<T>(s: State<T>) {
    && Known(s) && (forall t :: t in s.info ==> FlagsTell(s.info[t]))
    && (forall g :: 0 <= g < GROUPS ==> Distinct(s.groups[g]))
    && (forall g, h :: 0 <= g < h < GROUPS ==> Apart(s.groups[g], s.groups[h]))
  }

  /** The quantifier keeps proofs from taking the invariant apart where they only hand it on. */
  ghost predicate Inv<T>(s: State<T>) {
    exists r :: r in [s] && Whole(r)
  }

  ghost predicate Apart<T>(a: seq<T>, b: seq<T>) {
    forall i, j :: 0 <= i < |a| && 0 <= j < |b| ==> a[i] != b[j]
  }

  lemma PassedTells(i: Info)
    requires FlagsTell(i)
    ensures FlagsTell(Passed(i)) && (Overdue(i) <==> Has(i.flags, ACTIVE) && Passed(i).misses >= 2)
    ensures Has(Passed(i).flags, ACTIVE) <==> Has(i.flags, ACTIVE)
  {
  }

  lemma CallsTell(i: Info)
    requires FlagsTell(i)
    ensures FlagsTell(Activated(i)) && FlagsTell(Deactivated(i)) && FlagsTell(Kicked(i)) && FlagsTell(Info(0, 0))
  {
  }

  // ----- A pass

  /** A pass looks at each handler of the group once. */
  lemma {:induction false} PassOfEach<T>(group: seq<T>, info: map<T, Info>, t: T)
    requires InGroup(group, info) && Distinct(group) && t in info
    ensures PassInfo(group, info)[t] == if t in group then Passed(info[t]) else info[t]
  {
    if group != [] {
      PassOfEach(group[1..], info[group[0] := Passed(info[group[0]])], t);
    }
  }

  lemma {:induction false} PassKicks<T>(group: seq<T>, info: map<T, Info>)
    requires InGroup(group, info) && Distinct(group)
    ensures PassKick(group, info) <==> forall i :: 0 <= i < |group| ==> !Overdue(info[group[i]])
  {
    if group != [] {
      PassKicks(group[1..], info[group[0] := Passed(info[group[0]])]);
      assert forall i :: 1 <= i < |group| ==> group[i] == group[1..][i - 1];
    }
  }

  /** An active handler of the group that was missed twice in a row, or more often. */
  ghost predicate MissedTwice<T>(group: seq<T>, info: map<T, Info>)
    requires InGroup(group, info)
  {
    exists i :: 0 <= i < |group| && Has(info[group[i]].flags, ACTIVE) && info[group[i]].misses >= 2
  }

  lemma ProcessKeeps<T>(s: State<T>, g: nat)
    requires Inv(s) && g < GROUPS
    ensures Inv(Process(s, g))
    ensures Process(s, g).kick[g] <==> !MissedTwice(s.groups[g], Process(s, g).info)
  {
    var r := Process(s, g);
    forall t | t in r.info ensures FlagsTell(r.info[t]) && (t in s.groups[g] ==> r.info[t] == Passed(s.info[t])) {
      PassOfEach(s.groups[g], s.info, t);
      PassedTells(s.info[t]);
    }
    PassKicks(s.groups[g], s.info);
    forall i | 0 <= i < |s.groups[g]|
      ensures Overdue(s.info[s.groups[g][i]]) <==>
              Has(r.info[s.groups[g][i]].flags, ACTIVE) && r.info[s.groups[g][i]].misses >= 2
    {
      assert s.groups[g][i] in s.groups[g];
      PassedTells(s.info[s.groups[g][i]]);
    }
    assert Whole(r);
  }

  /** A pass over one group leaves the handlers of another one alone. */
  lemma OtherGroupKept<T>(s: State<T>, g: nat, h: nat)
    requires Inv(s) && g < GROUPS && h < GROUPS && g != h
    ensures Process(s, g).kick[h] == s.kick[h]
    ensures MissedTwice(s.groups[h], Process(s, g).info) <==> MissedTwice(s.groups[h], s.info)
    ensures forall i :: 0 <= i < |s.groups[h]| ==> Process(s, g).info[s.groups[h][i]] == s.info[s.groups[h][i]]
  {
    assert Apart(s.groups[if g < h then g else h], s.groups[if g < h then h else g]);
    forall i | 0 <= i < |s.groups[h]| ensures Process(s, g).info[s.groups[h][i]] == s.info[s.groups[h][i]] {
      PassOfEach(s.groups[g], s.info, s.groups[h][i]);
    }
  }

  /** What a tick looks at: one more on the counter. */
  function Counted<T>(s: State<T>): State<T> {
    s.(counter := (s.counter + 1) % 0x1_0000_0000)
  }

  /** After a tick the group's kick flag, if the group was due, says whether a handler of it was
      missed twice, and is still set otherwise. */
  ghost predicate KickTells<T>(s: State<T>, r: State<T>, g: nat)
    requires Known(s) && Known(r) && g < GROUPS && 1 <= s.interval <= 30 && r.groups == s.groups
  {
    if Due(s, g) then r.kick[g] <==> !MissedTwice(s.groups[g], r.info) else r.kick[g]
  }

  lemma DueKeeps<T>(s: State<T>, g: nat)
    requires Inv(s) && g < GROUPS && 1 <= s.interval <= 30
    ensures Inv(ProcessDue(s, g)) && KickTells(s, ProcessDue(s, g), g)
  {
    ProcessKeeps(s, g);
  }

  lemma OtherDueKept<T>(s0: State<T>, s: State<T>, g: nat, h: nat)
    requires Inv(s0) && Inv(s) && s.groups == s0.groups && g < GROUPS && h < GROUPS && g != h && 1 <= s.interval == s0.interval <= 30
    requires KickTells(s0, s, h)
    ensures KickTells(s0, ProcessDue(s, g), h)
  {
    if Due(s, g) { OtherGroupKept(s, g, h); }
  }

  lemma DueUnchanged<T>(s: State<T>, g: nat, h: nat)
    requires Inv(s) && g < GROUPS && h < GROUPS && g != h && 1 <= s.interval <= 30
    ensures Due(ProcessDue(s, g), h) <==> Due(s, h)
  {
  }

  /** The passes of a tick over the groups before the g-th. */
  function PassesUpTo<T(==)>(s: State<T>, g: nat): (r: State<T>)
    requires Known(s) && 1 <= s.interval <= 30 && g <= GROUPS
    ensures Known(r) && r.groups == s.groups && r.info.Keys == s.info.Keys && r.interval == s.interval && r.counter == s.counter
  {
    if g == 0 then s else ProcessDue(PassesUpTo(s, g - 1), g - 1)
  }

  lemma PassesAre<T>(s: State<T>)
    requires Known(s) && 1 <= s.interval <= 30
    ensures Known(Counted(s)) && Passes(s) == PassesUpTo(Counted(s), 3)
  {
    assert PassesUpTo(Counted(s), 1) == ProcessDue(PassesUpTo(Counted(s), 0), 0);
    assert PassesUpTo(Counted(s), 2) == ProcessDue(PassesUpTo(Counted(s), 1), 1);
  }

  lemma {:induction false} PassesUpToKeep<T>(s: State<T>, g: nat, h: nat)
    requires Inv(s) && 1 <= s.interval <= 30 && g <= h < GROUPS
    ensures Inv(PassesUpTo(s, g)) && (Due(PassesUpTo(s, g), h) <==> Due(s, h))
    decreases g
  {
    if g > 0 {
      PassesUpToKeep(s, g - 1, h);
      DueKeeps(PassesUpTo(s, g - 1), g - 1);
      DueUnchanged(PassesUpTo(s, g - 1), g - 1, h);
    }
  }

  lemma {:induction false} PassesUpToTell<T>(s: State<T>, g: nat, h: nat, r: State<T>)
    requires Inv(s) && 1 <= s.interval <= 30 && h < g <= GROUPS && r == PassesUpTo(s, g)
    ensures Inv(r) && KickTells(s, r, h)
    decreases g
  {
    var m := PassesUpTo(s, g - 1);
    PassesUpToKeep(s, g - 1, g - 1);
    if h < g - 1 {
      PassesUpToTell(s, g - 1, h, m);
      OtherTurn(s, m, g - 1, h, r);
    } else {
      SameTurn(s, m, g - 1, r);
    }
  }

  lemma OtherTurn<T>(s: State<T>, m: State<T>, g: nat, h: nat, r: State<T>)
    requires Inv(s) && Inv(m) && m.groups == s.groups && g < GROUPS && h < GROUPS && g != h && 1 <= s.interval == m.interval <= 30
    requires KickTells(s, m, h) && r == ProcessDue(m, g)
    ensures Inv(r) && KickTells(s, r, h)
  {
    DueKeeps(m, g);
    OtherDueKept(s, m, g, h);
  }

  lemma SameTurn<T>(s: State<T>, m: State<T>, g: nat, r: State<T>)
    requires Inv(s) && Inv(m) && g < GROUPS && 1 <= s.interval == m.interval <= 30 && m.groups == s.groups
    requires (Due(m, g) <==> Due(s, g)) && r == ProcessDue(m, g)
    ensures Inv(r) && KickTells(s, r, g)
  {
    DueKeeps(m, g);
  }

  lemma PassesKeep<T>(s: State<T>)
    requires Inv(s) && 1 <= s.interval <= 30
    ensures Inv(Passes(s)) && Inv(Counted(s))
    ensures forall g :: 0 <= g < GROUPS ==> KickTells(Counted(s), Passes(s), g)
  {
    PassesAre(s);
    assert Whole(Counted(s));
    forall g | 0 <= g < GROUPS ensures Inv(PassesUpTo(Counted(s), 3)) && KickTells(Counted(s), PassesUpTo(Counted(s), 3), g) {
      PassesUpToTell(Counted(s), 3, g, PassesUpTo(Counted(s), 3));
    }
    PassesUpToTell(Counted(s), 3, 0, PassesUpTo(Counted(s), 3));
  }

  /** A tick kicks the hardware exactly if no group that it passed over has an active handler that
      was missed twice in a row. */
  lemma TickKicksExactly<T>(s: State<T>, interval: nat)
    requires Inv(s) && 1 <= s.interval <= 30
    ensures var r := Tick(s, interval);
            && r.0.groups == s.groups && Known(r.0)
            && (r.1 <==> forall g :: 0 <= g < GROUPS && Due(Counted(s), g) ==> !MissedTwice(s.groups[g], r.0.info))
  {
    PassesKeep(s);
    assert KickTells(Counted(s), Passes(s), 0) && KickTells(Counted(s), Passes(s), 1) && KickTells(Counted(s), Passes(s), 2);
    forall g | 0 <= g < GROUPS && Due(Counted(s), g) ensures Passes(s).kick[g] <==> !MissedTwice(s.groups[g], Passes(s).info) {
      assert KickTells(Counted(s), Passes(s), g);
    }
  }

  // ----- Steps and runs

  lemma RegisterKeeps<T>(s: State<T>, t: T, g: nat)
    requires Inv(s) && Enabled(s, DoRegister(t, g))
    ensures Inv(Step(s, DoRegister(t, g)))
  {
    var r := Step(s, DoRegister(t, g));
    var k := IndexOf(s.groups[g], t);
    assert Distinct(s.groups[g]);
    forall h | 0 <= h < GROUPS ensures InGroup(r.groups[h], r.info) && Distinct(r.groups[h]) {
      assert InGroup(s.groups[h], s.info) && Distinct(s.groups[h]);
    }
    forall a, b | 0 <= a < b < GROUPS ensures Apart(r.groups[a], r.groups[b]) {
      assert Apart(s.groups[a], s.groups[b]);
      assert a != g ==> t !in s.groups[a];
      assert b != g ==> t !in s.groups[b];
    }
    CallsTell(Info(0, 0));
    assert Whole(r);
  }

  lemma UnregisterKeeps<T>(s: State<T>, t: T, g: nat)
    requires Inv(s) && Enabled(s, DoUnregister(t, g))
    ensures Inv(Step(s, DoUnregister(t, g)))
  {
    var r := Step(s, DoUnregister(t, g));
    assert Distinct(s.groups[g]) && InGroup(s.groups[g], s.info);
    forall a, b | 0 <= a < b < GROUPS ensures Apart(r.groups[a], r.groups[b]) {
      assert Apart(s.groups[a], s.groups[b]);
    }
    assert Whole(r);
  }

  lemma StepKeeps<T>(s: State<T>, op: Op<T>)
    requires Inv(s) && Enabled(s, op)
    ensures Inv(Step(s, op))
  {
    match op
    case DoRegister(t, g) => RegisterKeeps(s, t, g);
    case DoUnregister(t, g) => UnregisterKeeps(s, t, g);
    case DoTick(interval) =>
      PassesKeep(s);
      assert Whole(Step(s, op));
    case DoActivate(t) =>
      CallsTell(s.info[t]);
      assert Whole(Step(s, op));
    case DoDeactivate(t) =>
      CallsTell(s.info[t]);
      assert Whole(Step(s, op));
    case DoKick(t) =>
      CallsTell(s.info[t]);
      assert Whole(Step(s, op));
  }

  lemma {:induction false} InvOverRuns<T>(s: State<T>, ops: seq<Op<T>>)
    requires Inv(s)
    ensures Inv(Run(s, ops))
    decreases |ops|
  {
    if ops != [] {
      if Enabled(s, ops[0]) {
        StepKeeps(s, ops[0]);
        InvOverRuns(Step(s, ops[0]), ops[1..]);
      } else {
        InvOverRuns(s, ops[1..]);
      }
    }
  }

  // ----- A silent handler

  /** The step leaves the handler t of the group g alone. */
  ghost predicate Spares<T>(s: State<T>, op: Op<T>, t: T, g: nat)
    requires Known(s) && g < GROUPS
  {
    match op
    case DoRegister(u, h) => u != t && (h == g ==> u !in s.groups[g])
    case DoTick(_) => true
    case _ => op.handler != t
  }

  /** The n-th pass after which the handler is silent: from the first one on it is not kicked, from
      the second on it is flagged, and from the third on its group withholds the kick. */
  ghost predicate Silent<T>(s: State<T>, t: T, g: nat, n: nat)
    requires Known(s) && g < GROUPS
  {
    && t in s.groups[g] && t in s.info && Has(s.info[t].flags, ACTIVE)
    && (n >= 1 ==> !Has(s.info[t].flags, KICKED)) && (n >= 2 ==> Has(s.info[t].flags, FLAGGED))
    && (n >= 3 ==> !s.kick[g])
  }

  /** How many passes over the group a step makes. */
  function PassCount<T>(s: State<T>, op: Op<T>, g: nat): nat
    requires Enabled(s, op) && g < GROUPS
  {
    if op.DoTick? && Due(Counted(s), g) then 1 else 0
  }

  lemma PassSilences<T>(s: State<T>, t: T, g: nat, n: nat)
    requires Inv(s) && g < GROUPS && Silent(s, t, g, n)
    ensures Silent(Process(s, g), t, g, n + 1)
  {
    PassOfEach(s.groups[g], s.info, t);
    PassKicks(s.groups[g], s.info);
    var i :| 0 <= i < |s.groups[g]| && s.groups[g][i] == t;
    SilentPass(s.info[t]);
    if n >= 2 { assert Overdue(s.info[s.groups[g][i]]); }
  }

  lemma SilentPass(i: Info)
    requires Has(i.flags, ACTIVE)
    ensures Has(Passed(i).flags, ACTIVE) && !Has(Passed(i).flags, KICKED)
    ensures !Has(i.flags, KICKED) ==> Has(Passed(i).flags, FLAGGED)
  {
  }

  lemma OtherPassKeepsSilent<T>(s: State<T>, t: T, g: nat, n: nat, h: nat)
    requires Inv(s) && g < GROUPS && h < GROUPS && h != g && Silent(s, t, g, n)
    ensures Silent(Process(s, h), t, g, n)
  {
    OtherGroupKept(s, h, g);
    var i :| 0 <= i < |s.groups[g]| && s.groups[g][i] == t;
  }

  lemma DueSilences<T>(s: State<T>, t: T, g: nat, n: nat, h: nat, k: nat)
    requires Inv(s) && g < GROUPS && h < GROUPS && 1 <= s.interval <= 30 && Silent(s, t, g, n)
    requires k == if h == g && Due(s, g) then n + 1 else n
    ensures Silent(ProcessDue(s, h), t, g, k)
  {
    if Due(s, h) {
      if h == g { PassSilences(s, t, g, n); } else { OtherPassKeepsSilent(s, t, g, n, h); }
    }
  }

  lemma {:induction false} PassesUpToSilence<T>(s: State<T>, t: T, g: nat, n: nat, h: nat, k: nat, r: State<T>, due: bool)
    requires Inv(s) && g < GROUPS && 1 <= s.interval <= 30 && Silent(s, t, g, n) && h <= GROUPS && due == Due(s, g)
    requires k == (if h > g && due then n + 1 else n) && r == PassesUpTo(s, h)
    ensures Silent(r, t, g, k)
    decreases h
  {
    if h > 0 {
      var l, m := if h - 1 > g && due then n + 1 else n, PassesUpTo(s, h - 1);
      PassesUpToSilence(s, t, g, n, h - 1, l, m, due);
      PassesUpToKeep(s, h - 1, h - 1);
      TurnSilences(m, t, g, l, h - 1, k, r);
    }
  }

  lemma TurnSilences<T>(m: State<T>, t: T, g: nat, n: nat, h: nat, k: nat, r: State<T>)
    requires Inv(m) && g < GROUPS && h < GROUPS && 1 <= m.interval <= 30 && Silent(m, t, g, n)
    requires k == (if h == g && Due(m, g) then n + 1 else n) && r == ProcessDue(m, h)
    ensures Silent(r, t, g, k)
  {
    DueSilences(m, t, g, n, h, k);
  }

  lemma TickSilences<T>(s: State<T>, t: T, g: nat, n: nat)
    requires Inv(s) && g < GROUPS && 1 <= s.interval <= 30 && Silent(s, t, g, n)
    ensures Silent(Passes(s), t, g, if Due(Counted(s), g) then n + 1 else n)
  {
    PassesKeep(s);
    PassesAre(s);
    PassesUpToSilence(Counted(s), t, g, n, 3, if Due(Counted(s), g) then n + 1 else n, Passes(s), Due(Counted(s), g));
  }

  lemma UnregisterSilences<T>(s: State<T>, t: T, g: nat, n: nat, u: T, h: nat)
    requires Inv(s) && g < GROUPS && Silent(s, t, g, n) && Enabled(s, DoUnregister(u, h)) && u != t
    ensures Known(Step(s, DoUnregister(u, h))) && Silent(Step(s, DoUnregister(u, h)), t, g, n)
  {
    UnregisterKeeps(s, u, h);
    var i :| 0 <= i < |s.groups[g]| && s.groups[g][i] == t;
    if h == g && u in s.groups[g] {
      var k := IndexOf(s.groups[g], u);
      assert Unregistered(s.groups[g], u)[if i < k then i else i - 1] == t;
    }
  }

  lemma StepSilences<T>(s: State<T>, op: Op<T>, t: T, g: nat, n: nat)
    requires Inv(s) && Enabled(s, op) && g < GROUPS && Silent(s, t, g, n) && Spares(s, op, t, g)
    ensures Known(Step(s, op)) && Silent(Step(s, op), t, g, n + PassCount(s, op, g))
  {
    StepKeeps(s, op);
    match op
    case DoTick(interval) => TickSilences(s, t, g, n);
    case DoRegister(u, h) =>
      if h == g { assert s.groups[g][..IndexOf(s.groups[g], u)] == s.groups[g]; }
    case DoUnregister(u, h) => UnregisterSilences(s, t, g, n, u, h);
    case _ =>
  }

  /** Every step of the run is possible, and leaves the handler alone. */
  ghost predicate AllSpare<T>(s: State<T>, ops: seq<Op<T>>, t: T, g: nat)
    requires g < GROUPS
    decreases |ops|
  {
    ops == [] || (Enabled(s, ops[0]) && Spares(s, ops[0], t, g) && AllSpare(Step(s, ops[0]), ops[1..], t, g))
  }

  ghost function PassesOver<T>(s: State<T>, ops: seq<Op<T>>, g: nat): nat
    requires g < GROUPS
    decreases |ops|
  {
    if ops == [] then 0
    else if Enabled(s, ops[0]) then PassCount(s, ops[0], g) + PassesOver(Step(s, ops[0]), ops[1..], g)
    else PassesOver(s, ops[1..], g)
  }

  lemma {:induction false} RunSilences<T>(s: State<T>, ops: seq<Op<T>>, t: T, g: nat, n: nat)
    requires Inv(s) && g < GROUPS && Silent(s, t, g, n) && AllSpare(s, ops, t, g)
    ensures Inv(Run(s, ops)) && Silent(Run(s, ops), t, g, n + PassesOver(s, ops, g))
    decreases |ops|
  {
    if ops != [] {
      StepKeeps(s, ops[0]);
      StepSilences(s, ops[0], t, g, n);
      RunSilences(Step(s, ops[0]), ops[1..], t, g, n + PassCount(s, ops[0], g));
    }
  }

  /** Over every run an active handler that nobody kicks, activates, deactivates or unregisters
      withholds the hardware kick in the third pass over its group, and at every later tick. */
  lemma SilentHandlerWithholds<T>(s: State<T>, ops: seq<Op<T>>, t: T, g: nat, interval: nat)
    requires Inv(s) && g < GROUPS && t in s.groups[g] && t in s.info && Has(s.info[t].flags, ACTIVE)
    requires AllSpare(s, ops, t, g) && Enabled(Run(s, ops), DoTick(interval))
    requires PassesOver(s, ops, g) + PassCount(Run(s, ops), DoTick(interval), g) >= 3
    ensures !Tick(Run(s, ops), interval).1
  {
    RunSilences(s, ops, t, g, 0);
    var r := Run(s, ops);
    TickSilences(r, t, g, PassesOver(s, ops, g));
  }

  /** Once the third pass is over, every tick passes over the group again. */
  lemma WithheldIsPassedAgain<T>(s: State<T>, ops: seq<Op<T>>, t: T, g: nat, interval: nat)
    requires Inv(s) && g < GROUPS && t in s.groups[g] && t in s.info && Has(s.info[t].flags, ACTIVE)
    requires AllSpare(s, ops, t, g) && Enabled(Run(s, ops), DoTick(interval)) && PassesOver(s, ops, g) >= 3
    ensures PassCount(Run(s, ops), DoTick(interval), g) == 1 && !Tick(Run(s, ops), interval).1
  {
    RunSilences(s, ops, t, g, 0);
    SilentHandlerWithholds(s, ops, t, g, interval);
  }

  // ----- Diligent handlers

  /** No active handler is ever missed twice in a row. */
  ghost predicate NoneMissedTwice<T>(s: State<T>)
    requires Known(s)
  {
    forall g :: 0 <= g < GROUPS ==> !MissedTwice(s.groups[g], s.info)
  }

  ghost predicate Diligent<T>(s: State<T>, ops: seq<Op<T>>)
    decreases |ops|
  {
    && Known(s) && NoneMissedTwice(s)
    && (ops == [] || (Enabled(s, ops[0]) && Diligent(Step(s, ops[0]), ops[1..])))
  }

  ghost predicate EveryTickKicks<T>(s: State<T>, ops: seq<Op<T>>)
    decreases |ops|
  {
    ops == [] || (Enabled(s, ops[0]) && (ops[0].DoTick? ==> Tick(s, ops[0].interval).1) && EveryTickKicks(Step(s, ops[0]), ops[1..]))
  }

  /** Over every run in which no active handler is missed twice in a row, every tick kicks. */
  lemma {:induction false} DiligenceKicks<T>(s: State<T>, ops: seq<Op<T>>)
    requires Inv(s) && Diligent(s, ops)
    ensures EveryTickKicks(s, ops)
    decreases |ops|
  {
    if ops != [] {
      StepKeeps(s, ops[0]);
      if ops[0].DoTick? {
        TickKicksExactly(s, ops[0].interval);
        assert NoneMissedTwice(Step(s, ops[0]));
      }
      DiligenceKicks(Step(s, ops[0]), ops[1..]);
    }
  }

  // ----- Registering twice

  /** Registering a handle that is in the group already keeps the other handlers exactly if it was
      the last one: those behind it are cut off. */
  lemma RegisterAgainCuts<T>(group: seq<T>, t: T)
    requires Distinct(group) && t in group
    ensures (forall u :: u in group ==> u in Registered(group, t)) <==> IndexOf(group, t) == |group| - 1
  {
    var k := IndexOf(group, t);
    if k < |group| - 1 {
      CutOff(group, t, k + 1);
    } else {
      forall u | u in group ensures u in Registered(group, t) {
        var i :| 0 <= i < |group| && group[i] == u;
        assert i < k ==> group[..k][i] == u;
      }
    }
  }

  lemma CutOff<T>(group: seq<T>, t: T, i: nat)
    requires Distinct(group) && IndexOf(group, t) < i < |group|
    ensures group[i] in group && group[i] !in Registered(group, t)
  {
    var k := IndexOf(group, t);
    assert forall j :: 0 <= j < k ==> group[..k][j] == group[j];
  }
}
