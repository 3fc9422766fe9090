/**
 How often the watchdog of src/svc/svc_wdt.c looks at its handlers, and how soon it notices one
 that is silent: counted in ticks and calls, not in flags.
 */
module WatchdogPace {
  import opened Common
  import opened WatchdogMachine
  import opened WatchdogRuns

  // ----- How often a group is passed

  function Ticks<T>(ops: seq<Op<T>>): nat {
    if ops == [] then 0 else (if ops[0].DoTick? then 1 else 0) + Ticks(ops[1..])
  }

  /** Every kick of the hardware returns the same interval. */
  ghost predicate Steady<T>(ops: seq<Op<T>>, interval: nat) {
    forall k :: 0 <= k < |ops| && ops[k].DoTick? ==> ops[k].interval == interval
  }

  /** One more on a counter makes one more full period exactly where the period divides it. */
  lemma OneMore(c: nat, p: nat)
    requires p > 0
    ensures (c + 1) / p - c / p == if (c + 1) % p == 0 then 1 else 0
  {
    var q, r := c / p, c % p;
    assert c == p * q + r;
    if r == p - 1 {
      assert c + 1 == p * (q + 1);
      Quotient(c + 1, p, q + 1, 0);
    } else {
      assert c + 1 == p * q + (r + 1);
      Quotient(c + 1, p, q, r + 1);
    }
  }

  lemma Quotient(x: nat, p: nat, q: nat, r: nat)
    requires p > 0 && r < p && x == p * q + r
    ensures x / p == q && x % p == r
  {
    var d := x / p - q;
    assert x == p * (x / p) + x % p;
    assert p * d == r - x % p;
    Product(p, d);
  }

  lemma Product(p: nat, d: int)
    ensures d >= 1 ==> p * d >= p
    ensures d <= -1 ==> p * d <= 0 - p
  {
  }

  lemma PassOfTick<T>(s: State<T>, interval: nat, g: nat, p: nat)
    requires Inv(s) && 1 <= s.interval <= 30 && 1 <= interval <= 30 && g < GROUPS && s.kick[g] && s.counter + 1 < 0x1_0000_0000
    requires p == if g == 0 then 1 else if g == 1 then 30 / s.interval else 60 / s.interval
    ensures Enabled(s, DoTick(interval)) && p > 0
    ensures PassCount(s, DoTick(interval), g) == (s.counter + 1) / p - s.counter / p
  {
    OneMore(s.counter, p);
  }

  /** Over every run in which each tick kicks, at a constant interval and before the counter wraps
      around: the group of 10 seconds is passed at every tick, and those of 30 and 60 seconds as
      often as the counter goes through a multiple of 30 / interval, respectively 60 / interval. */
  lemma {:induction false} PassesCounted<T>(s: State<T>, ops: seq<Op<T>>, g: nat, p: nat)
    requires Inv(s) && 1 <= s.interval <= 30 && AllKick(s) && EveryTickKicks(s, ops) && Steady(ops, s.interval) && g < GROUPS
    requires p == if g == 0 then 1 else if g == 1 then 30 / s.interval else 60 / s.interval
    requires s.counter + Ticks(ops) < 0x1_0000_0000
    ensures p > 0 && PassesOver(s, ops, g) == (s.counter + Ticks(ops)) / p - s.counter / p
    ensures Inv(Run(s, ops)) && AllKick(Run(s, ops))
    decreases |ops|
  {
    if ops != [] {
      var r := Step(s, ops[0]);
      StepKeeps(s, ops[0]);
      StepCounts(s, ops[0], r);
      SteadyTail(ops, s.interval);
      if ops[0].DoTick? { PassOfTick(s, ops[0].interval, g, p); }
      PassesCounted(r, ops[1..], g, p);
    }
  }

  lemma SteadyTail<T>(ops: seq<Op<T>>, interval: nat)
    requires ops != [] && Steady(ops, interval)
    ensures Steady(ops[1..], interval) && (ops[0].DoTick? ==> ops[0].interval == interval)
  {
    forall k | 0 <= k < |ops[1..]| && ops[1..][k].DoTick? ensures ops[1..][k].interval == interval {
      assert ops[1..][k] == ops[k + 1];
    }
  }

  /** A tick counts, and takes the interval that a kick of the hardware returns. */
  lemma StepCounts<T>(s: State<T>, op: Op<T>, r: State<T>)
    requires Enabled(s, op) && r == Step(s, op)
    ensures r.counter == if op.DoTick? then (s.counter + 1) % 0x1_0000_0000 else s.counter
    ensures op.DoTick? && Tick(s, op.interval).1 ==> r.interval == op.interval && AllKick(r)
    ensures op.DoTick? && !Tick(s, op.interval).1 ==> r.interval == s.interval && !AllKick(r)
    ensures !op.DoTick? ==> r.interval == s.interval && r.kick == s.kick
  {
  }

  /** An active handler that is left alone makes a tick withhold the kick after 3 passes of its group
      at the latest: within 3 ticks for the group of 10 seconds, 3 * (30 / interval) for that of 30
      and 3 * (60 / interval) for that of 60. */
  lemma SilentIsCaught<T>(s: State<T>, ops: seq<Op<T>>, t: T, g: nat, p: nat)
    requires Inv(s) && 1 <= s.interval <= 30 && AllKick(s) && Steady(ops, s.interval) && g < GROUPS
    requires p == if g == 0 then 1 else if g == 1 then 30 / s.interval else 60 / s.interval
    requires t in s.groups[g] && t in s.info && Has(s.info[t].flags, ACTIVE) && AllSpare(s, ops, t, g)
    requires Ticks(ops) >= 3 * p && s.counter + Ticks(ops) < 0x1_0000_0000
    ensures !EveryTickKicks(s, ops)
  {
    if EveryTickKicks(s, ops) {
      PassesCounted(s, ops, g, p);
      ThreePeriods(s.counter, Ticks(ops), p);
      RunSilences(s, ops, t, g, 0);
      assert false;
    }
  }

  lemma ThreePeriods(c: nat, n: nat, p: nat)
    requires p > 0 && n >= 3 * p
    ensures (c + n) / p - c / p >= 3
  {
    var q, r := c / p, c % p;
    assert c + 3 * p == p * (q + 3) + r;
    Quotient(c + 3 * p, p, q + 3, r);
    DivMonotone(c + 3 * p, c + n, p);
  }

  lemma DivMonotone(a: nat, b: nat, p: nat)
    requires p > 0 && a <= b
    ensures a / p <= b / p
  {
    var x, y := a / p, b / p;
    assert a == p * x + a % p && b == p * y + b % p;
    Product(p, y - x);
    assert p * (y - x) == p * y - p * x;
  }

  // ----- The flags of a handler, told by the calls for it

  /** What each call makes of the four flags: active, kicked, flagged and reported. */
  lemma CallsSetFlags<T>(s: State<T>, t: T)
    requires Known(s) && t in s.info
    ensures Step(s, DoActivate(t)).info == s.info[t := s.info[t].(flags := 3, misses := 0)]
    ensures Step(s, DoKick(t)).info == s.info[t := s.info[t].(flags := (s.info[t].flags | 2) & 0xF3, misses := 0)]
    ensures Step(s, DoDeactivate(t)).info == s.info[t := s.info[t].(flags := s.info[t].flags & 0xF0, misses := 0)]
  {
  }

  /** Registering puts a new handle in front of its group, with no flags; unregistering takes it out,
      and leaves the others in their order. */
  lemma CallsSetGroup<T>(s: State<T>, t: T, g: nat)
    requires Inv(s) && g < GROUPS && t in s.info
    ensures Enabled(s, DoRegister(t, g)) && t !in s.groups[g] ==>
      var r := Step(s, DoRegister(t, g));
      r.groups == s.groups[g := [t] + s.groups[g]] && r.info == s.info[t := Info(0, 0)] && r.kick == s.kick
    ensures var r := Step(s, DoUnregister(t, g));
            && r.groups == s.groups[g := Without(s.groups[g], t)] && r.info == s.info && r.kick == s.kick
            && t !in r.groups[g]
  {
    var group := s.groups[g];
    assert Distinct(group);
    var k := IndexOf(group, t);
    assert t !in group ==> group[..k] == group;
    if t in group { WithoutIsCut(group, k); }
    forall i | 0 <= i < |Unregistered(group, t)| ensures Unregistered(group, t)[i] != t {
      assert k < |group| ==> Unregistered(group, t)[i] == group[if i < k then i else i + 1];
    }
  }

  lemma {:induction false} WithoutIsCut<T>(list: seq<T>, k: nat)
    requires k < |list| && forall i :: 0 <= i < k ==> list[i] != list[k]
    ensures Without(list, list[k]) == list[..k] + list[k + 1..]
  {
    if k > 0 {
      WithoutIsCut(list[1..], k - 1);
      assert list[..k] == [list[0]] + list[1..][..k - 1];
    }
  }

  /** How many passes over its group a handler has seen since it was last kicked or activated. */
  type Ages<!T> = map<T, nat>

  /** The groups a tick passes. */
  predicate PassedIn<T(==)>(s: State<T>, t: T)
    requires Known(s) && 1 <= s.interval <= 30
  {
    exists g :: 0 <= g < GROUPS && t in s.groups[g] && Due(Counted(s), g)
  }

  function AgesAfter<T(==)>(s: State<T>, ages: Ages<T>, op: Op<T>): Ages<T>
    requires Enabled(s, op)
  {
    match op
    case DoActivate(t) => ages[t := 0]
    case DoKick(t) => ages[t := 0]
    case DoTick(_) => map t | t in ages :: if PassedIn(s, t) then ages[t] + 1 else ages[t]
    case _ => ages
  }

  /** The flags of the active handlers tell their ages: kicked at 0, flagged from 2 on. */
  ghost predicate AgesTell<T>(s: State<T>, ages: Ages<T>)
    requires Known(s)
  {
    forall g, t :: 0 <= g < GROUPS && t in s.groups[g] && Has(s.info[t].flags, ACTIVE) ==> AgeTells(s.info[t], ages, t)
  }

  predicate AgeTells<T(==)>(i: Info, ages: Ages<T>, t: T) {
    t in ages && (Has(i.flags, KICKED) <==> ages[t] == 0) && (Has(i.flags, FLAGGED) <==> ages[t] >= 2)
  }

  /** What the passes before the h-th group make of a handler of the group g. */
  lemma {:induction false} PassesInfo<T>(s: State<T>, h: nat, g: nat, t: T, m: State<T>)
    requires Inv(s) && 1 <= s.interval <= 30 && h <= GROUPS && g < GROUPS && t in s.groups[g] && m == PassesUpTo(s, h)
    ensures t in s.info && t in m.info
    ensures m.info[t] == if h > g && Due(s, g) then Passed(s.info[t]) else s.info[t]
    decreases h
  {
    if h > 0 {
      var l := PassesUpTo(s, h - 1);
      PassesInfo(s, h - 1, g, t, l);
      PassesUpToKeep(s, h - 1, h - 1);
      TurnInfo(l, h - 1, g, t);
      if h - 1 == g { PassesUpToKeep(s, g, g); }
    }
  }

  lemma TurnInfo<T>(s: State<T>, h: nat, g: nat, t: T)
    requires Inv(s) && 1 <= s.interval <= 30 && h < GROUPS && g < GROUPS && t in s.groups[g]
    ensures t in s.info && t in ProcessDue(s, h).info
    ensures ProcessDue(s, h).info[t] == if h == g && Due(s, g) then Passed(s.info[t]) else s.info[t]
  {
    var i :| 0 <= i < |s.groups[g]| && s.groups[g][i] == t;
    assert Distinct(s.groups[h]);
    PassOfEach(s.groups[h], s.info, t);
    if h != g { OtherGroupKept(s, h, g); }
  }

  lemma PassedInGroup<T>(s: State<T>, t: T, g: nat)
    requires Inv(s) && 1 <= s.interval <= 30 && g < GROUPS && t in s.groups[g]
    ensures PassedIn(s, t) <==> Due(Counted(s), g)
  {
    forall h | 0 <= h < GROUPS && t in s.groups[h] ensures h == g {
      var i :| 0 <= i < |s.groups[g]| && s.groups[g][i] == t;
      var j :| 0 <= j < |s.groups[h]| && s.groups[h][j] == t;
      assert h != g ==> Apart(s.groups[if g < h then g else h], s.groups[if g < h then h else g]);
    }
  }

  lemma PassedAges<T>(i: Info, ages: Ages<T>, t: T)
    requires AgeTells(i, ages, t) && Has(i.flags, ACTIVE)
    ensures AgeTells(Passed(i), ages[t := ages[t] + 1], t)
    ensures Overdue(i) <==> ages[t] >= 2
  {
  }

  lemma TickAges<T>(s: State<T>, ages: Ages<T>, interval: nat, r: State<T>, g: nat, t: T)
    requires Inv(s) && 1 <= s.interval <= 30 && 1 <= interval <= 30 && AgesTell(s, ages) && r == Step(s, DoTick(interval))
    requires g < GROUPS && t in s.groups[g] && t in r.info && Has(r.info[t].flags, ACTIVE)
    ensures t in s.info && AgeTells(r.info[t], AgesAfter(s, ages, DoTick(interval)), t)
  {
    PassesAre(s);
    PassesKeep(s);
    PassesInfo(Counted(s), 3, g, t, Passes(s));
    PassedInGroup(s, t, g);
    assert FlagsTell(s.info[t]);
    PassedTells(s.info[t]);
    assert AgeTells(s.info[t], ages, t);
    PassedAges(s.info[t], ages, t);
  }

  /** Every step keeps what the flags tell. */
  lemma StepAges<T>(s: State<T>, op: Op<T>, ages: Ages<T>, r: State<T>)
    requires Inv(s) && Enabled(s, op) && AgesTell(s, ages) && r == Step(s, op)
    ensures Known(r) && AgesTell(r, AgesAfter(s, ages, op))
  {
    StepKeeps(s, op);
    var next := AgesAfter(s, ages, op);
    forall g, t | 0 <= g < GROUPS && t in r.groups[g] && Has(r.info[t].flags, ACTIVE) ensures AgeTells(r.info[t], next, t) {
      if op.DoTick? {
        TickAges(s, ages, op.interval, r, g, t);
      } else {
        CallAges(s, op, ages, r, g, t);
      }
    }
  }

  lemma CallAges<T>(s: State<T>, op: Op<T>, ages: Ages<T>, r: State<T>, g: nat, t: T)
    requires Inv(s) && Enabled(s, op) && !op.DoTick? && AgesTell(s, ages) && r == Step(s, op) && Known(r)
    requires g < GROUPS && t in r.groups[g] && t in r.info && Has(r.info[t].flags, ACTIVE)
    ensures AgeTells(r.info[t], AgesAfter(s, ages, op), t)
  {
    assert op.handler != t ==> t in s.groups[g] && AgeTells(s.info[t], ages, t);
    if op.handler == t && (op.DoKick? || op.DoUnregister?) { assert t in s.groups[g]; }
  }

  ghost function AgesOver<T>(s: State<T>, ages: Ages<T>, ops: seq<Op<T>>): Ages<T>
    decreases |ops|
  {
    if ops == [] then ages
    else if Enabled(s, ops[0]) then AgesOver(Step(s, ops[0]), AgesAfter(s, ages, ops[0]), ops[1..])
    else AgesOver(s, ages, ops[1..])
  }

  lemma {:induction false} AgesOverRuns<T>(s: State<T>, ages: Ages<T>, ops: seq<Op<T>>)
    requires Inv(s) && AgesTell(s, ages)
    ensures Inv(Run(s, ops)) && AgesTell(Run(s, ops), AgesOver(s, ages, ops))
    decreases |ops|
  {
    if ops != [] {
      if Enabled(s, ops[0]) {
        StepKeeps(s, ops[0]);
        StepAges(s, ops[0], ages, Step(s, ops[0]));
        AgesOverRuns(Step(s, ops[0]), AgesAfter(s, ages, ops[0]), ops[1..]);
      } else {
        AgesOverRuns(s, ages, ops[1..]);
      }
    }
  }

  /** The handler has seen at most one pass since it was last kicked or activated, or is not active. */
  predicate Recent<T(==)>(s: State<T>, ages: Ages<T>, t: T)
    requires t in s.info
  {
    Has(s.info[t].flags, ACTIVE) ==> t in ages && ages[t] <= 1
  }

  /** After every run from the start, a tick kicks the hardware exactly if every active handler of
      the groups it passes was kicked or activated since the pass before last of its group. */
  lemma TickKicksByAge<T>(s0: State<T>, ops: seq<Op<T>>, interval: nat)
    requires Inv(s0) && (forall t :: t in s0.info ==> !Has(s0.info[t].flags, ACTIVE)) && Enabled(Run(s0, ops), DoTick(interval))
    ensures var s := Run(s0, ops);
            Tick(s, interval).1 <==>
            forall g, i :: 0 <= g < GROUPS && Due(Counted(s), g) && 0 <= i < |s.groups[g]| ==>
                             Recent(s, AgesOver(s0, map[], ops), s.groups[g][i])
  {
    AgesOverRuns(s0, map[], ops);
    var s, ages := Run(s0, ops), AgesOver(s0, map[], ops);
    TickKicksExactly(s, interval);
    forall g | 0 <= g < GROUPS && Due(Counted(s), g)
      ensures !MissedTwice(s.groups[g], Tick(s, interval).0.info) <==> forall i :: 0 <= i < |s.groups[g]| ==> Recent(s, ages, s.groups[g][i])
    {
      GroupByAge(s, ages, interval, g);
    }
  }

  lemma GroupByAge<T>(s: State<T>, ages: Ages<T>, interval: nat, g: nat)
    requires Inv(s) && 1 <= s.interval <= 30 && 1 <= interval <= 30 && AgesTell(s, ages) && g < GROUPS && Due(Counted(s), g)
    ensures Known(Tick(s, interval).0)
    ensures !MissedTwice(s.groups[g], Tick(s, interval).0.info) <==>
            forall i :: 0 <= i < |s.groups[g]| ==> Recent(s, ages, s.groups[g][i])
  {
    PassesAre(s);
    PassesKeep(s);
    var r := Tick(s, interval).0;
    forall i | 0 <= i < |s.groups[g]|
      ensures var t := s.groups[g][i]; (Has(r.info[t].flags, ACTIVE) && r.info[t].misses >= 2) <==> !Recent(s, ages, t)
    {
      var t := s.groups[g][i];
      PassesInfo(Counted(s), 3, g, t, Passes(s));
      assert FlagsTell(s.info[t]);
      PassedTells(s.info[t]);
      if Has(s.info[t].flags, ACTIVE) {
        assert AgeTells(s.info[t], ages, t);
        PassedAges(s.info[t], ages, t);
      }
    }
  }
}
