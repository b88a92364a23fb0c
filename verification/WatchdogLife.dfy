/** The open/write/ioctl/release life cycle of a watchdog device, over every run. */
module WatchdogLife {
  import opened Basics
  import opened WatchdogState

  // One call into the core.  Arguments named err are what the driver's operation returns.
  datatype Call =
    | OpenCall(moduleThere: bool, err: int)
    | WriteCall(data: string, fault: Option<nat>)
    | SetOptionsCall(disable: bool, enable: bool, stopErr: int, startErr: int)
    | KeepAliveCall
    | SetTimeoutCall(seconds: nat)
    | ReleaseCall(err: int)
    | TimerCall

  datatype Step = Step(call: Call, now: int)

  // The device, and whether the scanned part of the latest non-empty write contained a 'V'.
  datatype Life = Life(d: Dev, magic: bool)

  predicate WellFormedCall(c: Call) {
    c.WriteCall? && c.fault.Some? ==> c.fault.value < |c.data|
  }

  function Do(c: Config, d: Dev, call: Call, now: int): Dev
    requires WellFormedCall(call)
  {
    match call
    case OpenCall(moduleThere, err) => Open(c, d, moduleThere, err, now)
    case WriteCall(data, fault) => Write(c, d, data, fault, now)
    case SetOptionsCall(disable, enable, stopErr, startErr) => SetOptions(c, d, disable, enable, stopErr, startErr, now)
    case KeepAliveCall => Ping(c, d, now)
    case SetTimeoutCall(seconds) => SetTimeout(c, d, seconds, now)
    case ReleaseCall(err) => Release(c, d, err, now)
    case TimerCall => TimerFires(c, d, now)
  }

  function Scanned(data: string, fault: Option<nat>): string
    requires fault.Some? ==> fault.value < |data|
  {
    if fault.Some? then data[..fault.value] else data
  }

  function Next(c: Config, l: Life, s: Step): Life
    requires WellFormedCall(s.call)
  {
    Life(Do(c, l.d, s.call, s.now),
         if s.call.WriteCall? && s.call.data != "" then 'V' in Scanned(s.call.data, s.call.fault) else l.magic)
  }

  // Everything but open and the timer goes through an open file handle.
  predicate HasHandle(l: Life, s: Step) {
    s.call.OpenCall? || s.call.TimerCall? || l.d.files > 0
  }

  // The driver does not refuse to start hardware that is already running.
  predicate StartsWhenRunning(l: Life, s: Step) {
    s.call.OpenCall? && l.d.hwRunning ==> StartResult(l.d, s.call.err) >= 0
  }

  ghost predicate Run(c: Config, ls: seq<Life>, steps: seq<Step>) {
    && |ls| == |steps| + 1
    && forall t | 0 <= t < |steps| ::
         && WellFormedCall(steps[t].call) && HasHandle(ls[t], steps[t])
         && ls[t + 1] == Next(c, ls[t], steps[t])
  }

  function Held(d: Dev): int {
    if d.isOpen || d.hwRunning then 1 else 0
  }

  // A registered device: closed, with references only if the boot loader left it running.
  predicate Registered(l: Life) {
    && !l.d.isOpen && !l.d.allowRelease && l.d.files == 0
    && l.d.moduleRefs == l.d.deviceRefs == Held(l.d)
  }

  predicate OpenerAndMagic(l: Life) {
    l.d.files == (if l.d.isOpen then 1 else 0) && (l.d.allowRelease ==> l.magic)
  }

  predicate RefsExact(d: Dev) {
    d.moduleRefs == d.deviceRefs == Held(d)
  }

  // The counters and flags that only open, write and release change.
  predicate SameHandles(d: Dev, e: Dev) {
    && e.isOpen == d.isOpen && e.allowRelease == d.allowRelease && e.files == d.files
    && e.moduleRefs == d.moduleRefs && e.deviceRefs == d.deviceRefs
  }

  lemma PingFrame(c: Config, d: Dev, now: int)
    ensures SameHandles(d, Ping(c, d, now))
    ensures Ping(c, d, now).active == d.active && Ping(c, d, now).hwRunning == d.hwRunning
  {
  }

  lemma StartFrame(c: Config, d: Dev, now: int, err: int)
    ensures SameHandles(d, Start(c, d, now, err))
    ensures Start(c, d, now, err).hwRunning == d.hwRunning && (d.active ==> Start(c, d, now, err).active)
  {
  }

  lemma StopFrame(c: Config, d: Dev, now: int, err: int)
    ensures SameHandles(d, Stop(c, d, now, err))
    ensures !d.active || c.noWayOut ==> Stop(c, d, now, err) == d
  {
  }

  ghost predicate OpenEffect(d: Dev, e: Dev, ok: bool) {
    && e.hwRunning == d.hwRunning && e.allowRelease == d.allowRelease && (d.active ==> e.active)
    && e.isOpen == (d.isOpen || ok) && e.files == d.files + (if ok then 1 else 0) && (ok ==> !d.isOpen)
    && e.deviceRefs == d.deviceRefs + (if ok && !d.hwRunning then 1 else 0)
    && e.moduleRefs == d.moduleRefs
         + (if ok && !d.hwRunning then 1 else if !ok && !d.isOpen && d.hwRunning then -1 else 0)
  }

  lemma OpenFrame(c: Config, d: Dev, moduleThere: bool, err: int, now: int)
    ensures OpenEffect(d, Open(c, d, moduleThere, err, now), OpenResult(d, moduleThere, err) >= 0)
  {
    hide PingHardware, UpdateWorker, Start;
    StartFrame(c, d.(isOpen := true, moduleRefs := d.moduleRefs + if d.hwRunning then 0 else 1), now, err);
  }

  ghost predicate WriteEffect(d: Dev, e: Dev, data: string, fault: Option<nat>)
    requires fault.Some? ==> fault.value < |data|
  {
    && e.active == d.active && e.hwRunning == d.hwRunning
    && e.allowRelease == (if data == "" then d.allowRelease else 'V' in Scanned(data, fault))
    && SameHandles(d.(allowRelease := e.allowRelease), e)
  }

  lemma WriteFrame(c: Config, d: Dev, data: string, fault: Option<nat>, now: int)
    requires fault.Some? ==> fault.value < |data|
    ensures WriteEffect(d, Write(c, d, data, fault, now), data, fault)
  {
    hide PingHardware, UpdateWorker, Ping;
    PingFrame(c, d.(allowRelease := 'V' in data), now);
  }

  // Release deactivates a device only if the magic was seen or is not asked for, and stopping works.
  ghost predicate ReleaseEffect(c: Config, d: Dev, e: Dev, err: int) {
    && !e.isOpen && e.files == d.files - 1 && (e.allowRelease ==> d.allowRelease)
    && e.active == (d.active && !(MayStop(c, d) && StopResult(c, d, err) == 0))
    && e.deviceRefs == d.deviceRefs - (if e.hwRunning then 0 else 1)
    && e.moduleRefs == d.moduleRefs - (if e.hwRunning then 0 else 1)
  }

  lemma ReleaseFrame(c: Config, d: Dev, err: int, now: int)
    ensures ReleaseEffect(c, d, Release(c, d, err, now), err)
  {
    hide PingHardware, UpdateWorker, Ping;
    var e := if d.active then d.(allowRelease := false) else d;
    var stopped := if MayStop(c, d) then Stop(c, e, now, err) else e;
    StopFrame(c, e, now, err);
    PingFrame(c, stopped, now);
  }

  ghost predicate OtherEffect(c: Config, d: Dev, e: Dev, timer: bool) {
    && SameHandles(d, e)
    && (d.active && c.noWayOut ==> e.active)
    && (timer ==> e.hwRunning == d.hwRunning && e.active == d.active)
  }

  lemma OtherFrame(c: Config, d: Dev, call: Call, now: int)
    requires !call.OpenCall? && !call.WriteCall? && !call.ReleaseCall?
    ensures OtherEffect(c, d, Do(c, d, call, now), call.TimerCall?)
  {
    hide PingHardware, UpdateWorker, Start, Stop, Ping;
    match call
    case SetOptionsCall(disable, enable, stopErr, startErr) =>
      StopFrame(c, d, now, stopErr);
      StartFrame(c, d, now, startErr);
      StartFrame(c, Stop(c, d, now, stopErr), now, startErr);
    case KeepAliveCall =>
      PingFrame(c, d, now);
    case SetTimeoutCall(seconds) =>
      PingFrame(c, UpdateWorker(c, d.(timeout := seconds), now), now);
    case TimerCall =>
  }

  lemma Effects(c: Config, l: Life, s: Step)
    requires WellFormedCall(s.call)
    ensures var d, e := l.d, Next(c, l, s).d;
      match s.call
      case OpenCall(there, err) => OpenEffect(d, e, OpenResult(d, there, err) >= 0)
      case WriteCall(data, fault) => WriteEffect(d, e, data, fault)
      case ReleaseCall(err) => ReleaseEffect(c, d, e, err)
      case _ => OtherEffect(c, d, e, s.call.TimerCall?)
  {
    hide Open, Write, Release, SetOptions, Ping, SetTimeout, TimerFires;
    match s.call
    case OpenCall(there, err) => OpenFrame(c, l.d, there, err, s.now);
    case WriteCall(data, fault) => WriteFrame(c, l.d, data, fault, s.now);
    case ReleaseCall(err) => ReleaseFrame(c, l.d, err, s.now);
    case _ => OtherFrame(c, l.d, s.call, s.now);
  }

  lemma NextKeepsOpenerAndMagic(c: Config, l: Life, s: Step)
    requires WellFormedCall(s.call) && HasHandle(l, s) && OpenerAndMagic(l)
    ensures OpenerAndMagic(Next(c, l, s))
  {
    hide Do;
    Effects(c, l, s);
  }

  /** The references are right after every call, unless an open fails to start hardware that is
      already running: that path gives back a module reference it never took. */
  lemma NextKeepsRefsIff(c: Config, l: Life, s: Step)
    requires WellFormedCall(s.call) && HasHandle(l, s) && OpenerAndMagic(l) && RefsExact(l.d)
    ensures RefsExact(Next(c, l, s).d) <==> l.d.isOpen || StartsWhenRunning(l, s)
  {
    hide Do;
    Effects(c, l, s);
  }

  /** In every run at most one file handle is open, and the magic flag is up only if the latest
      non-empty write contained a 'V'. */
  lemma {:induction false} OneOpenerAlways(c: Config, ls: seq<Life>, steps: seq<Step>, t: nat)
    requires Run(c, ls, steps) && Registered(ls[0]) && t < |ls|
    ensures OpenerAndMagic(ls[t]) && ls[t].d.files <= 1
  {
    if t > 0 {
      OneOpenerAlways(c, ls, steps, t - 1);
      NextKeepsOpenerAndMagic(c, ls[t - 1], steps[t - 1]);
    }
  }

  /** One device and one module reference are held exactly while the device is open or its hardware
      is marked running. */
  lemma {:induction false} ReferencesAlwaysExact(c: Config, ls: seq<Life>, steps: seq<Step>, t: nat)
    requires Run(c, ls, steps) && Registered(ls[0]) && t < |ls|
    requires forall k | 0 <= k < |steps| :: ls[k].d.isOpen || StartsWhenRunning(ls[k], steps[k])
    ensures RefsExact(ls[t].d)
  {
    if t > 0 {
      OneOpenerAlways(c, ls, steps, t - 1);
      ReferencesAlwaysExact(c, ls, steps, t - 1);
      NextKeepsRefsIff(c, ls[t - 1], steps[t - 1]);
    }
  }

  /** And they go wrong in every other run. */
  lemma ReferencesExactIff(c: Config, ls: seq<Life>, steps: seq<Step>)
    requires Run(c, ls, steps) && Registered(ls[0])
    ensures (forall t | 0 <= t < |ls| :: RefsExact(ls[t].d))
       <==> forall k | 0 <= k < |steps| :: ls[k].d.isOpen || StartsWhenRunning(ls[k], steps[k])
  {
    if forall k | 0 <= k < |steps| :: ls[k].d.isOpen || StartsWhenRunning(ls[k], steps[k]) {
      forall t | 0 <= t < |ls|
        ensures RefsExact(ls[t].d)
      {
        ReferencesAlwaysExact(c, ls, steps, t);
      }
    } else {
      var k :| 0 <= k < |steps| && !(ls[k].d.isOpen || StartsWhenRunning(ls[k], steps[k]));
      OneOpenerAlways(c, ls, steps, k);
      if RefsExact(ls[k].d) {
        NextKeepsRefsIff(c, ls[k], steps[k]);
        assert !RefsExact(ls[k + 1].d);
      }
    }
  }

  lemma NextKeepsActive(c: Config, l: Life, s: Step)
    requires WellFormedCall(s.call) && c.noWayOut && l.d.active
    ensures Next(c, l, s).d.active
  {
    hide Do;
    Effects(c, l, s);
  }

  /** With nowayout an active watchdog stays active for ever. */
  lemma {:induction false} NoWayOutNeverStops(c: Config, ls: seq<Life>, steps: seq<Step>, from: nat, t: nat)
    requires Run(c, ls, steps) && from <= t < |ls| && c.noWayOut && ls[from].d.active
    ensures ls[t].d.active
  {
    if from < t {
      NoWayOutNeverStops(c, ls, steps, from, t - 1);
      NextKeepsActive(c, ls[t - 1], steps[t - 1]);
    }
  }

  /** When release stops a device that asks for the magic, the latest non-empty write had a 'V'. */
  lemma StoppedByReleaseHadMagic(c: Config, ls: seq<Life>, steps: seq<Step>, t: nat)
    requires Run(c, ls, steps) && Registered(ls[0]) && t < |steps|
    requires steps[t].call.ReleaseCall? && c.magicClose && ls[t].d.active && !ls[t + 1].d.active
    ensures ls[t].magic
  {
    OneOpenerAlways(c, ls, steps, t);
    Effects(c, ls[t], steps[t]);
  }

  /** But that write may belong to an earlier session: a session that writes nothing is stopped by
      its own close exactly if it inherited the flag. */
  lemma SilentSessionStoppedIff(c: Config, d: Dev, at: int, later: int, err: int)
    requires !d.isOpen && c.magicClose && !c.noWayOut && (c.hasStop ==> err == 0)
    ensures var e := Open(c, d, true, 0, at);
      e.isOpen && e.active && (!Release(c, e, err, later).active <==> d.allowRelease)
  {
    OpenFrame(c, d, true, 0, at);
    ReleaseFrame(c, Open(c, d, true, 0, at), err, later);
  }

  /** And it can be inherited: write the magic, stop by ioctl, close. */
  lemma MagicOutlivesItsSession(c: Config, d: Dev, now: int)
    requires !d.isOpen && !c.noWayOut && c.hasStop
    ensures var e1 := Open(c, d, true, 0, now);
            var e2 := Write(c, e1, "V", None, now);
            var e3 := SetOptions(c, e2, true, false, 0, 0, now);
            var e4 := Release(c, e3, 0, now);
            !e4.isOpen && !e4.active && e4.allowRelease
  {
    var e1 := Open(c, d, true, 0, now);
    var e2 := Write(c, e1, "V", None, now);
    var e3 := SetOptions(c, e2, true, false, 0, 0, now);
    OpenFrame(c, d, true, 0, now);
    WriteFrame(c, e1, "V", None, now);
    OtherFrame(c, e2, SetOptionsCall(true, false, 0, 0), now);
    hide PingHardware, UpdateWorker, Ping, Open, Write, Start;
    assert !e3.active && e3.allowRelease;
  }
}
