/**
 The watchdog of src/svc/svc_wdt.c as a state machine: handlers in three timeout groups, and a
 task that passes over the groups and kicks the hardware if no handler is overdue.
 */
module WatchdogMachine {

  const ACTIVE: bv8 := 1
  const KICKED: bv8 := 2
  const FLAGGED: bv8 := 4
  const REPORTED: bv8 := 8

  const GROUPS: nat := 3

  predicate Has(flags: bv8, bit: bv8) {
    flags & bit != 0
  }

  /** What is known of a handler. No code reads `misses`: how many passes of its group in a row
      have found it active and not kicked, since a kick of it was consumed or it was activated. */
  datatype Info = Info(flags: bv8, misses: nat)

  datatype State<T> = State(
    groups: seq<seq<T>>,
    info: map<T, Info>,
    kick: seq<bool>,      // for each group, whether its last pass allowed the hardware kick
    counter: nat,
    interval: nat)

  predicate Known<T(==)>(s: State<T>) {
    |s.groups| == |s.kick| == GROUPS && forall g :: 0 <= g < GROUPS ==> InGroup(s.groups[g], s.info)
  }

  predicate InGroup<T(==)>(group: seq<T>, info: map<T, Info>) {
    forall i :: 0 <= i < |group| ==> group[i] in info
  }

  // ----- Calls of the handlers

  function Activated(i: Info): Info {
    Info(ACTIVE | KICKED, 0)
  }

  function Deactivated(i: Info): Info {
    Info(i.flags & !(ACTIVE | KICKED | FLAGGED | REPORTED), 0)
  }

  function Kicked(i: Info): Info {
    Info((i.flags | KICKED) & !(REPORTED | FLAGGED), 0)
  }

  function IndexOf<T(==)>(group: seq<T>, t: T): (k: nat)
    ensures k <= |group| && (k < |group| ==> group[k] == t) && (k == |group| <==> t !in group)
    ensures forall i :: 0 <= i < k ==> group[i] != t
  {
    if group == [] then 0 else if group[0] == t then 0 else 1 + IndexOf(group[1..], t)
  }

  /** `svc_wdt_register`: the handle is cleared first, its link too; if it was in the group
      already, that cuts off the handlers behind it. */
  function Registered<T(==)>(group: seq<T>, t: T): seq<T> {
    [t] + group[..IndexOf(group, t)]
  }

  function Unregistered<T(==)>(group: seq<T>, t: T): seq<T> {
    var k := IndexOf(group, t);
    if k == |group| then group else group[..k] + group[k + 1..]
  }

  // ----- A pass over a group

  /** One handler in a pass of `svc_wdt_process`. */
  function Passed(i: Info): Info {
    if !Has(i.flags, ACTIVE) then i
    else if Has(i.flags, KICKED) then Info(i.flags & !(KICKED | FLAGGED | REPORTED), 0)
    else if Has(i.flags, FLAGGED) then Info(i.flags | REPORTED, i.misses + 1)
    else Info(i.flags | FLAGGED, i.misses + 1)
  }

  /** The handler withholds the kick in a pass. */
  predicate Overdue(i: Info) {
    Has(i.flags, ACTIVE) && !Has(i.flags, KICKED) && Has(i.flags, FLAGGED)
  }

  function PassInfo<T(==)>(group: seq<T>, info: map<T, Info>): (r: map<T, Info>)
    requires InGroup(group, info)
    ensures r.Keys == info.Keys
  {
    if group == [] then info else PassInfo(group[1..], info[group[0] := Passed(info[group[0]])])
  }

  function PassKick<T(==)>(group: seq<T>, info: map<T, Info>): bool
    requires InGroup(group, info)
  {
    group == [] || (!Overdue(info[group[0]]) && PassKick(group[1..], info[group[0] := Passed(info[group[0]])]))
  }

  /** `svc_wdt_process`. */
  function Process<T(==)>(s: State<T>, g: nat): (r: State<T>)
    requires Known(s) && g < GROUPS
    ensures Known(r) && r.groups == s.groups && r.info.Keys == s.info.Keys
    ensures r.counter == s.counter && r.interval == s.interval
  {
    s.(info := PassInfo(s.groups[g], s.info), kick := s.kick[g := PassKick(s.groups[g], s.info)])
  }

  /** The groups of 30 and 60 seconds are passed over twice in their time, or at every tick while
      their last pass withheld the kick; the group of 10 seconds at every tick. */
  predicate Due<T>(s: State<T>, g: nat)
    requires Known(s) && g < GROUPS && 1 <= s.interval <= 30
  {
    g == 0 || !s.kick[g] || s.counter % ((if g == 1 then 30 else 60) / s.interval) == 0
  }

  function ProcessDue<T(==)>(s: State<T>, g: nat): (r: State<T>)
    requires Known(s) && g < GROUPS && 1 <= s.interval <= 30
    ensures Known(r) && r.groups == s.groups && r.info.Keys == s.info.Keys
    ensures r.counter == s.counter && r.interval == s.interval
  {
    if Due(s, g) then Process(s, g) else s
  }

  /** The tick before the hardware kick. */
  function Passes<T(==)>(s: State<T>): (r: State<T>)
    requires Known(s) && 1 <= s.interval <= 30
    ensures Known(r) && r.groups == s.groups && r.info.Keys == s.info.Keys && r.interval == s.interval
  {
    ProcessDue(ProcessDue(ProcessDue(s.(counter := (s.counter + 1) % 0x1_0000_0000), 0), 1), 2)
  }

  predicate AllKick<T>(s: State<T>)
    requires Known(s)
  {
    s.kick[0] && s.kick[1] && s.kick[2]
  }

  /** `svc_wdt_task_cb`: the state after a tick, and whether the hardware was kicked; a kick returns
      the interval of the hardware. */
  function Tick<T(==)>(s: State<T>, interval: nat): (State<T>, bool)
    requires Known(s) && 1 <= s.interval <= 30
  {
    var r := Passes(s);
    if AllKick(r) then (r.(interval := interval), true) else (r, false)
  }

  // ----- Runs

  datatype Op<T> =
    | DoActivate(handler: T) | DoDeactivate(handler: T) | DoKick(handler: T)
    | DoRegister(handler: T, group: nat) | DoUnregister(handler: T, group: nat)
    | DoTick(interval: nat)

  predicate Enabled<T(==)>(s: State<T>, op: Op<T>) {
    Known(s) &&
    match op
    case DoRegister(t, g) => g < GROUPS && forall k :: 0 <= k < GROUPS && k != g ==> t !in s.groups[k]
    case DoUnregister(t, g) => t in s.info && g < GROUPS
    case DoTick(interval) => 1 <= s.interval <= 30 && 1 <= interval <= 30
    case _ => op.handler in s.info
  }

  function Step<T(==)>(s: State<T>, op: Op<T>): State<T>
    requires Enabled(s, op)
  {
    match op
    case DoActivate(t) => s.(info := s.info[t := Activated(s.info[t])])
    case DoDeactivate(t) => s.(info := s.info[t := Deactivated(s.info[t])])
    case DoKick(t) => s.(info := s.info[t := Kicked(s.info[t])])
    case DoRegister(t, g) => s.(groups := s.groups[g := Registered(s.groups[g], t)], info := s.info[t := Info(0, 0)])
    case DoUnregister(t, g) => s.(groups := s.groups[g := Unregistered(s.groups[g], t)])
    case DoTick(interval) => Tick(s, interval).0
  }

  function Run<T(==)>(s: State<T>, ops: seq<Op<T>>): State<T>
    decreases |ops|
  {
    if ops == [] then s else Run(if Enabled(s, ops[0]) then Step(s, ops[0]) else s, ops[1..])
  }
}
