/** When the watchdog hardware expires, over every run of calls and timer firings of an active watchdog. */
module WatchdogTiming {
  import opened Basics
  import opened WatchdogState
  import opened WatchdogLife

  datatype Clocked = Clocked(d: Dev, now: int)

  function Limit(c: Config): int {
    Ms(c.maxHw)
  }

  // The hardware expires when it has not been fed for its maximum heartbeat.
  function Expiry(c: Config, d: Dev): int {
    d.fed + Limit(c)
  }

  // When the user's last ping runs out.
  function Deadline(d: Dev): int {
    d.lastKeepalive + Ms(TimeoutMs(d))
  }

  // The core has to feed the hardware for the user, and the two heartbeat limits leave room for it.
  ghost predicate Workable(c: Config, d: Dev) {
    c.maxHw >= 2 && 2 * c.minHw <= c.maxHw && TimeoutMs(d) > c.maxHw
  }

  function Apply(c: Config, s: Clocked, e: Step): Clocked
    requires WellFormedCall(e.call)
  {
    Clocked(Do(c, s.d, e.call, e.now), e.now)
  }

  // The timer's event, when it is due.
  function Firing(s: Clocked): Step
    requires s.d.timer.Some?
  {
    Step(TimerCall, s.d.timer.value)
  }

  // The event happens before the hardware expires and not after an armed timer is due, and timers fire when they are
  // due.
  // Drivers return 0 or a negative error number.
  ghost predicate Possible(c: Config, s: Clocked, e: Step) {
    && WellFormedCall(e.call)
    && (e.call.ReleaseCall? ==> e.call.err <= 0)
    && if e.call.TimerCall? then s.d.timer == Some(e.now)
       else s.now <= e.now < Expiry(c, s.d) && (s.d.timer.Some? ==> e.now <= s.d.timer.value)
  }

  // The calls by which the user shows to be alive: every write that hands over all its bytes, the keep-alive and
  // set-timeout ioctls, a close that does not stop the watchdog, and a restart.
  predicate Heard(c: Config, call: Call) {
    match call
    case WriteCall(data, fault) => data != "" && fault.None?
    case KeepAliveCall => true
    case SetTimeoutCall(_) => true
    case ReleaseCall(_) => true
    case SetOptionsCall(disable, enable, stopErr, _) =>
      disable && enable && !c.noWayOut && (c.hasStop ==> stopErr == 0)
    case OpenCall(_, _) => false
    case TimerCall => false
  }

  /** What every event keeps.  last is the latest moment for the worker's last ping, so that the
      hardware does not expire before the deadline. */
  ghost predicate OnSchedule(c: Config, s: Clocked) {
    var d, last := s.d, Deadline(s.d) - Limit(c);
    && d.active && Workable(c, d) && d.lastHw == d.fed <= s.now && d.lastKeepalive <= s.now < Expiry(c, d)
    && match d.timer
       case None => last <= d.fed && (d.fed == last || d.fed < last + Ms(c.minHw))
       case Some(x) =>
         && s.now <= x && d.fed < x < Expiry(c, d) && d.fed < last
         && (x <= last || x == d.fed + Ms(c.minHw))
  }

  // Where the worker is needed it runs at half the hardware's heartbeat, but aims for last.
  lemma WorkerInterval(c: Config, d: Dev, now: int)
    requires d.active && Workable(c, d)
    ensures NeedWorker(c, d) && HeartbeatMs(c, d) == c.maxHw
    ensures 0 < Ms(c.maxHw / 2) < Limit(c) && Ms(c.minHw) <= Ms(c.maxHw / 2)
    ensures var last := Deadline(d) - Limit(c);
            NextKeepalive(c, d, now) == if last - now < Ms(c.maxHw / 2) then last - now else Ms(c.maxHw / 2)
  {
  }

  // One attempt to feed the hardware, which is early enough.
  lemma PingKeepsSchedule(c: Config, d: Dev, now: int)
    requires d.active && Workable(c, d)
    requires d.lastHw == d.fed <= now < Expiry(c, d) && d.lastKeepalive <= now
    requires var last := Deadline(d) - Limit(c);
      d.fed < last && (now < last || (d.timer.None? && (now == last || now == d.fed + Ms(c.minHw))))
    ensures OnSchedule(c, Clocked(PingHardware(c, d, now), now))
  {
    WorkerInterval(c, d, now);
    var e := d.(lastHw := now, fed := now);
    WorkerInterval(c, e, now);
    hide NeedWorker, NextKeepalive, HeartbeatMs, TimeoutMs, Workable;
  }

  lemma StartIsOnSchedule(c: Config, d: Dev, now: int)
    requires !d.active && Workable(c, d)
    ensures OnSchedule(c, Clocked(Start(c, d, now, 0), now))
  {
    WorkerInterval(c, d.(active := true, lastKeepalive := now), now);
  }

  /** Every call that leaves the watchdog active, and every firing, keeps the schedule. */
  lemma EventKeepsSchedule(c: Config, s: Clocked, e: Step)
    requires OnSchedule(c, s) && Possible(c, s, e) && Apply(c, s, e).d.active
    requires e.call.SetTimeoutCall? ==> Workable(c, s.d.(timeout := e.call.seconds))
    ensures OnSchedule(c, Apply(c, s, e))
  {
    match e.call
    case WriteCall(data, fault) => WriteKeepsSchedule(c, s, e);
    case KeepAliveCall => UserPingKeepsSchedule(c, s.d, e.now);
    case SetTimeoutCall(seconds) =>
      UserPingKeepsSchedule(c, UpdateWorker(c, s.d.(timeout := seconds), e.now), e.now);
    case TimerCall => PingKeepsSchedule(c, s.d.(timer := None), e.now);
    case OpenCall(there, err) => OpenKeepsSchedule(c, s, e);
    case SetOptionsCall(disable, enable, stopErr, startErr) => OptionsKeepSchedule(c, s, e);
    case ReleaseCall(err) => ReleaseKeepsSchedule(c, s, e);
    hide NeedWorker, NextKeepalive, PingHardware, Open, Write, Release, SetOptions;
  }

  lemma WriteKeepsSchedule(c: Config, s: Clocked, e: Step)
    requires OnSchedule(c, s) && Possible(c, s, e) && e.call.WriteCall?
    ensures OnSchedule(c, Clocked(Write(c, s.d, e.call.data, e.call.fault, e.now), e.now))
  {
    hide NeedWorker, NextKeepalive, PingHardware;
    if e.call.data != "" && e.call.fault.None? {
      UserPingKeepsSchedule(c, s.d.(allowRelease := 'V' in e.call.data), e.now);
    } else {
      QuietKeepsSchedule(c, s, Clocked(Write(c, s.d, e.call.data, e.call.fault, e.now), e.now));
    }
  }

  lemma OpenKeepsSchedule(c: Config, s: Clocked, e: Step)
    requires OnSchedule(c, s) && Possible(c, s, e) && e.call.OpenCall?
    ensures OnSchedule(c, Clocked(Open(c, s.d, e.call.moduleThere, e.call.err, e.now), e.now))
  {
    QuietKeepsSchedule(c, s, Clocked(Open(c, s.d, e.call.moduleThere, e.call.err, e.now), e.now));
    hide OnSchedule, UpdateWorker;
  }

  // Nothing that matters for the schedule changes.
  lemma QuietKeepsSchedule(c: Config, s: Clocked, t: Clocked)
    requires OnSchedule(c, s) && s.now <= t.now < Expiry(c, s.d) && (s.d.timer.Some? ==> t.now <= s.d.timer.value)
    requires t.d == s.d.(hwRunning := t.d.hwRunning, isOpen := t.d.isOpen, allowRelease := t.d.allowRelease,
                         keepalive := t.d.keepalive, files := t.d.files, moduleRefs := t.d.moduleRefs,
                         deviceRefs := t.d.deviceRefs)
    ensures OnSchedule(c, t)
  {
  }

  lemma OptionsKeepSchedule(c: Config, s: Clocked, e: Step)
    requires OnSchedule(c, s) && Possible(c, s, e) && Apply(c, s, e).d.active && e.call.SetOptionsCall?
    ensures OnSchedule(c, Apply(c, s, e))
  {
    assert s.d.active && Workable(c, s.d);
    if Heard(c, e.call) {
      StoppedIs(c, s.d, e.now, e.call.stopErr);
      StartIsOnSchedule(c, Stop(c, s.d, e.now, e.call.stopErr), e.now);
    } else {
      OptionsAreQuiet(c, s, e);
      QuietKeepsSchedule(c, s, Apply(c, s, e));
    }
    hide *;
  }

  lemma StoppedIs(c: Config, d: Dev, now: int, err: int)
    requires d.active && !c.noWayOut && (c.hasStop ==> err == 0)
    ensures var e := Stop(c, d, now, err); !e.active && StopResult(c, d, err) == 0 && e.timeout == d.timeout
    ensures Workable(c, d) ==> Workable(c, Stop(c, d, now, err))
  {
  }

  lemma OptionsAreQuiet(c: Config, s: Clocked, e: Step)
    requires s.d.active && e.call.SetOptionsCall? && !Heard(c, e.call) && Apply(c, s, e).d.active
    ensures Apply(c, s, e).d == s.d.(hwRunning := Apply(c, s, e).d.hwRunning)
  {
  }

  // A close that does not stop the watchdog pings, and then sets the worker up once more.
  lemma ReleaseKeepsSchedule(c: Config, s: Clocked, e: Step)
    requires OnSchedule(c, s) && Possible(c, s, e) && Apply(c, s, e).d.active && e.call.ReleaseCall?
    ensures OnSchedule(c, Apply(c, s, e))
  {
    var d := StopForRelease(c, s.d, e.call.err, e.now);
    var p := ReleasePings(c, s.d, e.call.err, e.now);
    UserPingKeepsSchedule(c, p, e.now);
    ReprogramKeepsSchedule(c, p, e.now);
    var t := Clocked(UpdateWorker(c, d, e.now), e.now);
    assert OnSchedule(c, t);
    QuietKeepsSchedule(c, t, Clocked(CloseHandle(t.d), e.now));
    hide *;
  }

  lemma ReleasePings(c: Config, d: Dev, err: int, now: int) returns (p: Dev)
    requires d.active && err <= 0 && Release(c, d, err, now).active
    ensures p == d.(hwRunning := p.hwRunning, allowRelease := false)
    ensures StopForRelease(c, d, err, now) == Ping(c, p, now)
  {
    var e := d.(allowRelease := false);
    p := if MayStop(c, d) then Stop(c, e, now, err) else e;
    hide PingHardware;
  }

  lemma ReprogramKeepsSchedule(c: Config, d: Dev, at: int)
    requires d.active && Workable(c, d) && d.lastHw == d.fed <= at < Expiry(c, d)
    ensures OnSchedule(c, Clocked(UpdateWorker(c, Ping(c, d, at), at), at))
  {
    WorkerInterval(c, d.(keepalive := true, lastKeepalive := at), at);
    WorkerInterval(c, d.(keepalive := true, lastKeepalive := at, lastHw := at, fed := at), at);
    WorkerInterval(c, Ping(c, d, at), at);
    hide NeedWorker, NextKeepalive, HeartbeatMs, TimeoutMs;
  }

  lemma UserPingKeepsSchedule(c: Config, d: Dev, at: int)
    requires d.active && Workable(c, d) && d.lastHw == d.fed <= at < Expiry(c, d)
    ensures OnSchedule(c, Clocked(Ping(c, d, at), at))
  {
    PingKeepsSchedule(c, d.(keepalive := true, lastKeepalive := at), at);
  }

  // Every firing either feeds the hardware or is the one postponement before the next feeding.
  function Remaining(c: Config, s: Clocked): (nat, nat) {
    var last := Deadline(s.d) - Limit(c);
    (if last > s.d.fed then last - s.d.fed else 0,
     if s.d.timer.Some? && s.d.lastHw + Ms(c.minHw) > s.d.timer.value then 1 else 0)
  }

  lemma TimerProgress(c: Config, s: Clocked)
    requires OnSchedule(c, s) && s.d.timer.Some?
    ensures OnSchedule(c, Apply(c, s, Firing(s)))
    ensures Deadline(Apply(c, s, Firing(s)).d) == Deadline(s.d)
    ensures var before, after := Remaining(c, s), Remaining(c, Apply(c, s, Firing(s)));
            after.0 < before.0 || (after.0 == before.0 && after.1 < before.1)
  {
    EventKeepsSchedule(c, s, Firing(s));
  }

  // The user stays silent and the worker runs until it has nothing more to do.
  ghost function LetRun(c: Config, s: Clocked): (f: Clocked)
    requires OnSchedule(c, s)
    ensures OnSchedule(c, f) && f.d.timer.None? && Deadline(f.d) == Deadline(s.d)
    decreases Remaining(c, s).0, Remaining(c, s).1
  {
    if s.d.timer.None? then s
    else
      TimerProgress(c, s);
      LetRun(c, Apply(c, s, Firing(s)))
  }

  /** If the user stays silent from now on, the hardware expires at the deadline, or less than the
      minimum heartbeat later. */
  lemma SilentUserExpires(c: Config, s: Clocked)
    requires OnSchedule(c, s)
    ensures var at := Expiry(c, LetRun(c, s).d);
      && Deadline(s.d) <= at
      && (c.minHw == 0 ==> at == Deadline(s.d))
      && (c.minHw > 0 ==> at < Deadline(s.d) + Ms(c.minHw))
  {
    var f := LetRun(c, s);
  }

  function RunEvents(c: Config, s: Clocked, evs: seq<Step>): Clocked
    requires PossibleRun(c, s, evs)
    decreases evs
  {
    if evs == [] then s else RunEvents(c, Apply(c, s, evs[0]), evs[1..])
  }

  // A run of calls and firings in which the watchdog stays active and its timeout workable.
  ghost predicate PossibleRun(c: Config, s: Clocked, evs: seq<Step>)
    decreases evs
  {
    evs == [] ||
    (&& Possible(c, s, evs[0]) && Apply(c, s, evs[0]).d.active
     && (evs[0].call.SetTimeoutCall? ==> Workable(c, s.d.(timeout := evs[0].call.seconds)))
     && PossibleRun(c, Apply(c, s, evs[0]), evs[1..]))
  }

  // When the user was last heard of, and the timeout then in force.
  function LastHeard(c: Config, evs: seq<Step>, at: int): int {
    if evs == [] then at
    else LastHeard(c, evs[1..], if Heard(c, evs[0].call) then evs[0].now else at)
  }

  function LastTimeout(evs: seq<Step>, seconds: nat): nat {
    if evs == [] then seconds
    else LastTimeout(evs[1..], if evs[0].call.SetTimeoutCall? then evs[0].call.seconds else seconds)
  }

  // The device knows that it heard of the user.
  ghost predicate Tracks(c: Config, d: Dev, e: Step, t: Dev) {
    && t.lastKeepalive == (if Heard(c, e.call) then e.now else d.lastKeepalive)
    && t.timeout == (if e.call.SetTimeoutCall? then e.call.seconds else d.timeout)
    && (Heard(c, e.call) ==> t.keepalive)
  }

  lemma PingTracks(c: Config, d: Dev, now: int)
    requires d.active
    ensures var t := Ping(c, d, now); t.lastKeepalive == now && t.timeout == d.timeout && t.keepalive
  {
    hide UpdateWorker;
  }

  lemma ApplyTracksUser(c: Config, s: Clocked, e: Step)
    requires s.d.active && Possible(c, s, e) && Apply(c, s, e).d.active
    ensures Tracks(c, s.d, e, Apply(c, s, e).d)
  {
    hide NeedWorker, NextKeepalive, TimeoutMs, PingHardware;
    match e.call
    case ReleaseCall(err) => ReleaseTracks(c, s.d, e);
    case SetOptionsCall(_, _, _, _) => OptionsTrack(c, s.d, e);
    case OpenCall(_, _) => OpenTracks(c, s.d, e);
    case WriteCall(data, _) => PingTracks(c, s.d.(allowRelease := 'V' in data), e.now);
    case KeepAliveCall => PingTracks(c, s.d, e.now);
    case SetTimeoutCall(seconds) => PingTracks(c, UpdateWorker(c, s.d.(timeout := seconds), e.now), e.now);
    case TimerCall =>
    hide *;
  }

  lemma ReleaseTracks(c: Config, d: Dev, e: Step)
    requires d.active && e.call.ReleaseCall? && e.call.err <= 0 && Release(c, d, e.call.err, e.now).active
    ensures Tracks(c, d, e, Release(c, d, e.call.err, e.now))
  {
    var p := ReleasePings(c, d, e.call.err, e.now);
    PingTracks(c, p, e.now);
    hide StopForRelease, Ping, NeedWorker, NextKeepalive;
  }

  lemma OptionsTrack(c: Config, d: Dev, e: Step)
    requires d.active && e.call.SetOptionsCall?
    requires SetOptions(c, d, e.call.disable, e.call.enable, e.call.stopErr, e.call.startErr, e.now).active
    ensures Tracks(c, d, e, SetOptions(c, d, e.call.disable, e.call.enable, e.call.stopErr, e.call.startErr, e.now))
  {
    hide NeedWorker, NextKeepalive;
  }

  lemma OpenTracks(c: Config, d: Dev, e: Step)
    requires d.active && e.call.OpenCall?
    ensures Tracks(c, d, e, Open(c, d, e.call.moduleThere, e.call.err, e.now))
  {
  }

  lemma {:induction false} RunStaysOnSchedule(c: Config, s: Clocked, evs: seq<Step>)
    requires OnSchedule(c, s) && PossibleRun(c, s, evs)
    ensures var f := RunEvents(c, s, evs);
      && OnSchedule(c, f)
      && f.d.lastKeepalive == LastHeard(c, evs, s.d.lastKeepalive)
      && f.d.timeout == LastTimeout(evs, s.d.timeout)
    decreases evs
  {
    if evs != [] {
      FirstEvent(c, s, evs);
      ActiveOnSchedule(c, s);
      hide *;
      EventKeepsSchedule(c, s, evs[0]);
      ApplyTracksUser(c, s, evs[0]);
      RunStaysOnSchedule(c, Apply(c, s, evs[0]), evs[1..]);
    }
  }

  lemma ActiveOnSchedule(c: Config, s: Clocked)
    requires OnSchedule(c, s)
    ensures s.d.active
  {
  }

  lemma FirstEvent(c: Config, s: Clocked, evs: seq<Step>)
    requires PossibleRun(c, s, evs) && evs != []
    ensures var e, rest := evs[0], evs[1..];
      && WellFormedCall(e.call) && Possible(c, s, e) && Apply(c, s, e).d.active
      && (e.call.SetTimeoutCall? ==> Workable(c, s.d.(timeout := e.call.seconds)))
      && PossibleRun(c, Apply(c, s, e), rest) && RunEvents(c, s, evs) == RunEvents(c, Apply(c, s, e), rest)
    ensures forall at ::
              LastHeard(c, evs, at) == LastHeard(c, evs[1..], if Heard(c, evs[0].call) then evs[0].now else at)
    ensures forall seconds :: LastTimeout(evs, seconds)
              == LastTimeout(evs[1..], if evs[0].call.SetTimeoutCall? then evs[0].call.seconds else seconds)
  {
    hide Apply, Workable, Heard;
  }

  // The first open of a device, and the enabling ioctl, activate it.
  predicate Activates(d: Dev, call: Call) {
    match call
    case OpenCall(there, err) => !d.isOpen && (d.hwRunning || there) && err == 0
    case SetOptionsCall(_, enable, _, startErr) => enable && startErr == 0
    case _ => false
  }

  /** No other call activates an inactive watchdog. */
  lemma ActivatesIff(c: Config, d: Dev, call: Call, now: int)
    requires !d.active && WellFormedCall(call)
    ensures Do(c, d, call, now).active <==> Activates(d, call)
  {
    hide NeedWorker, NextKeepalive;
    match call
    case OpenCall(_, _) =>
    case SetOptionsCall(_, _, _, _) =>
    case _ =>
      hide Open, SetOptions;
  }

  lemma ActivationIsOnSchedule(c: Config, d: Dev, first: Step)
    requires !d.active && Workable(c, d) && Activates(d, first.call)
    ensures var s := Apply(c, Clocked(d, first.now), first);
            OnSchedule(c, s) && s.d.lastKeepalive == first.now && s.d.timeout == d.timeout
  {
    match first.call
    case OpenCall(there, err) =>
      StartIsOnSchedule(c, d.(isOpen := true, moduleRefs := d.moduleRefs + if d.hwRunning then 0 else 1), first.now);
    case SetOptionsCall(_, enable, stopErr, startErr) =>
      StartIsOnSchedule(c, d, first.now);
  }

  /** From the open or the ioctl that activates the watchdog on, whatever calls are made and timers fire while it
      stays active: the hardware has not expired, and left alone it expires timeout after the user was last heard of,
      exactly if the driver sets no minimum heartbeat and less than that minimum later otherwise. */
  lemma ExpiresTimeoutAfterLastPing(c: Config, d: Dev, first: Step, evs: seq<Step>)
    requires !d.active && Workable(c, d) && Activates(d, first.call)
    requires PossibleRun(c, Apply(c, Clocked(d, first.now), first), evs)
    ensures var s := RunEvents(c, Apply(c, Clocked(d, first.now), first), evs);
      && s.now < Expiry(c, s.d) && OnSchedule(c, s)
      && var deadline := LastHeard(c, evs, first.now) + Ms(LastTimeout(evs, d.timeout) * 1000 % 0x1_0000_0000);
         && deadline <= Expiry(c, LetRun(c, s).d)
         && (c.minHw == 0 ==> Expiry(c, LetRun(c, s).d) == deadline)
         && (c.minHw > 0 ==> Expiry(c, LetRun(c, s).d) < deadline + Ms(c.minHw))
  {
    var s0 := Apply(c, Clocked(d, first.now), first);
    ActivationIsOnSchedule(c, d, first);
    RunStaysOnSchedule(c, s0, evs);
    SilentUserExpires(c, RunEvents(c, s0, evs));
    hide Apply, Possible, Workable, PossibleRun, LetRun;
  }

  // A device nobody uses, whose hardware the core keeps alive.
  ghost predicate Idle(c: Config, s: Clocked) {
    var d := s.d;
    && !d.active && d.hwRunning && TimeoutMs(d) != 0 && HeartbeatMs(c, d) >= 2
    && c.maxHw >= 2 && 2 * c.minHw <= c.maxHw
    && d.lastHw == d.fed <= s.now
    && d.timer.Some? && s.now <= d.timer.value < Expiry(c, d)
  }

  function Firings(c: Config, s: Clocked, n: nat): Clocked
    decreases n
  {
    if n == 0 || s.d.timer.None? then s else Firings(c, Apply(c, s, Firing(s)), n - 1)
  }

  /** The worker keeps an idle device alive for ever: no firing finds the hardware expired. */
  lemma {:induction false} IdleIsKeptAlive(c: Config, s: Clocked, n: nat)
    requires Idle(c, s)
    ensures Idle(c, Firings(c, s, n)) && Firings(c, s, n).now < Expiry(c, Firings(c, s, n).d)
    decreases n
  {
    if n > 0 {
      IdleFiring(c, s);
      IdleIsKeptAlive(c, Apply(c, s, Firing(s)), n - 1);
    }
  }

  lemma IdleFiring(c: Config, s: Clocked)
    requires Idle(c, s)
    ensures Idle(c, Apply(c, s, Firing(s)))
  {
  }

  /** A watchdog whose hardware can be stopped is left alone after that: the worker is cancelled, and nothing feeds the
      hardware before the watchdog is activated again. */
  lemma StopLeavesAlone(c: Config, d: Dev, now: int)
    requires d.active && c.hasStop && !c.noWayOut
    ensures var e := Stop(c, d, now, 0); !e.active && !e.hwRunning && e.timer.None? && e.fed == d.fed
  {
  }

  lemma StoppedIsNotFed(c: Config, d: Dev, call: Call, now: int)
    requires !d.active && !d.hwRunning && d.timer.None? && WellFormedCall(call) && !Activates(d, call)
    ensures var e := Do(c, d, call, now);
            !e.active && !e.hwRunning && e.timer.None? && e.fed == d.fed && e.lastHw == d.lastHw
  {
    hide NextKeepalive;
    match call
    case OpenCall(_, _) =>
    case SetOptionsCall(_, _, _, _) =>
    case _ =>
      hide Open, SetOptions;
  }

  /** A close after which the watchdog is not active has not pinged it. */
  lemma StoppedByReleaseIsNotPinged(c: Config, d: Dev, err: int, now: int)
    ensures var e := Release(c, d, err, now);
            !e.active ==> e.fed == d.fed && e.lastHw == d.lastHw && e.lastKeepalive == d.lastKeepalive
  {
    hide UpdateWorker;
  }

  /** The worker of running hardware that nobody has open: none without a timeout, and otherwise it pings after half
      the timeout or half the hardware's limit, whichever is shorter. */
  lemma IdleWorker(c: Config, d: Dev, now: int)
    requires !d.active && d.hwRunning
    ensures var timeout := d.timeout * 1000 % 0x1_0000_0000;
            var shorter := if c.maxHw != 0 && c.maxHw < timeout then c.maxHw else timeout;
            && (timeout == 0 ==> UpdateWorker(c, d, now).timer == None)
            && (shorter >= 2 ==> UpdateWorker(c, d, now).timer == Some(now + shorter / 2 * 1_000_000))
  {
  }

  /** Hardware whose own limit covers the timeout, or has none, needs no worker while the user pings it. */
  lemma ShortTimeoutNeedsNoWorker(c: Config, d: Dev, now: int)
    requires d.active && (c.maxHw == 0 || TimeoutMs(d) <= c.maxHw) && d.lastHw + Ms(c.minHw) <= now
    ensures var e := Ping(c, d, now); e.fed == now && e.timer.None?
  {
  }

  /** Stopping a device whose driver cannot stop leaves it to the worker.  That works exactly if the
      hardware was fed recently enough: the first ping comes half a heartbeat after the stop. */
  lemma StopHandsOverIff(c: Config, s: Clocked, err: int)
    requires OnSchedule(c, s) && !c.hasStop && !c.noWayOut
    ensures !Stop(c, s.d, s.now, err).active && Stop(c, s.d, s.now, err).hwRunning
    ensures Idle(c, Clocked(Stop(c, s.d, s.now, err), s.now))
       <==> s.now + Ms(c.maxHw / 2) < Expiry(c, s.d)
  {
  }
}
