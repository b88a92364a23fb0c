/** drivers/watchdog/watchdog_dev.c on values: what each operation of the watchdog core does to the
    state of a device.  Times are in nanoseconds (ktime_t); a timer that is armed fires exactly when
    it is due.  What a driver operation returns is an argument. */
module WatchdogState {
  import opened Basics

  const MS: int := 1_000_000
  const EBUSY: int := 16
  const EFAULT: int := 14

  function Ms(ms: nat): int {
    ms * MS
  }

  // What the driver offers: heartbeat limits in milliseconds (max 0: unknown), optional operations,
  // the WDIOF_MAGICCLOSE option and the nowayout bit.
  datatype Config = Config(maxHw: nat, minHw: nat, hasStop: bool, magicClose: bool, noWayOut: bool)

  /** timeout is in seconds.  fed is when the driver last fed the hardware; files counts the open file handles,
      moduleRefs and deviceRefs the references taken by open and given back by release. */
  datatype Dev = Dev(timeout: nat, active: bool, hwRunning: bool,
                     isOpen: bool, allowRelease: bool, keepalive: bool,
                     lastKeepalive: int, lastHw: int, timer: Option<int>,
                     fed: int, files: int, moduleRefs: int, deviceRefs: int)

  // unsigned int arithmetic
  function TimeoutMs(d: Dev): nat {
    d.timeout * 1000 % 0x1_0000_0000
  }

  predicate NeedWorker(c: Config, d: Dev) {
    || (c.maxHw != 0 && d.active && TimeoutMs(d) > c.maxHw)
    || (TimeoutMs(d) != 0 && !d.active && d.hwRunning)
  }

  function MinNotZero(x: nat, y: nat): nat {
    if x == 0 then y else if y == 0 || x < y then x else y
  }

  function HeartbeatMs(c: Config, d: Dev): nat {
    MinNotZero(TimeoutMs(d), c.maxHw)
  }

  // The time from now to the next ping by the worker.
  function NextKeepalive(c: Config, d: Dev, now: int): int {
    var interval := Ms(HeartbeatMs(c, d) / 2);
    var latest := d.lastKeepalive + Ms(TimeoutMs(d)) - Ms(HeartbeatMs(c, d)) - now;
    if d.active && latest < interval then latest else interval
  }

  function UpdateWorker(c: Config, d: Dev, now: int): (e: Dev)
    ensures e == d.(timer := e.timer)
  {
    if !NeedWorker(c, d) then d.(timer := None)
    else if NextKeepalive(c, d, now) > 0 then d.(timer := Some(now + NextKeepalive(c, d, now)))
    else d
  }

  // __watchdog_ping
  function PingHardware(c: Config, d: Dev, now: int): (e: Dev)
    ensures e == d.(timer := e.timer, lastHw := e.lastHw, fed := e.fed)
    ensures e.fed != d.fed ==> e.fed == e.lastHw == now && d.lastHw + Ms(c.minHw) <= now
  {
    var earliest := d.lastHw + Ms(c.minHw);
    if earliest > now then d.(timer := Some(earliest))
    else UpdateWorker(c, d.(lastHw := now, fed := now), now)
  }

  // watchdog_ping
  function Ping(c: Config, d: Dev, now: int): Dev {
    if !d.active && !d.hwRunning then d
    else PingHardware(c, d.(keepalive := true, lastKeepalive := now), now)
  }

  function PingResult(c: Config, d: Dev, now: int, err: int): int {
    if (!d.active && !d.hwRunning) || d.lastHw + Ms(c.minHw) > now then 0 else err
  }

  // The timer has fired: watchdog_timer_expired and watchdog_ping_work.
  function TimerFires(c: Config, d: Dev, now: int): Dev {
    var e := d.(timer := None);
    if e.active || e.hwRunning then PingHardware(c, e, now) else e
  }

  /** A ping that comes too early is not lost: nothing is fed now, but the timer then armed feeds the hardware at the
      earliest time allowed, whoever armed it before. */
  lemma PostponedPingComes(c: Config, d: Dev, now: int)
    requires (d.active || d.hwRunning) && d.lastHw + Ms(c.minHw) > now
    ensures var e := PingHardware(c, d, now);
            && e.fed == d.fed && e.timer.Some? && now < e.timer.value
            && TimerFires(c, e, e.timer.value).fed == e.timer.value == d.lastHw + Ms(c.minHw)
            && forall x | now <= x < e.timer.value :: PingHardware(c, d, x) == e
  {
  }

  // watchdog_start; err is what the driver's ping or start operation returns.
  function Start(c: Config, d: Dev, now: int, err: int): Dev {
    if d.active then d
    else
      var e := d.(keepalive := true);
      if err != 0 then e
      else UpdateWorker(c, e.(active := true, lastKeepalive := now, lastHw := now, fed := now), now)
  }

  function StartResult(d: Dev, err: int): int {
    if d.active then 0 else err
  }

  // watchdog_stop; err is what the driver's stop operation returns.
  function Stop(c: Config, d: Dev, now: int, err: int): Dev {
    if !d.active || c.noWayOut then d
    else
      var e := d.(hwRunning := !c.hasStop);
      if StopResult(c, d, err) != 0 then e else UpdateWorker(c, e.(active := false), now)
  }

  function StopResult(c: Config, d: Dev, err: int): int {
    if !d.active then 0 else if c.noWayOut then -EBUSY else if c.hasStop then err else 0
  }

  // watchdog_write; fault is where reading the user's buffer fails, if it does.
  function Write(c: Config, d: Dev, data: string, fault: Option<nat>, now: int): Dev
    requires fault.Some? ==> fault.value < |data|
  {
    if data == "" then d
    else if fault.Some? then d.(allowRelease := 'V' in data[..fault.value])
    else Ping(c, d.(allowRelease := 'V' in data), now)
  }

  function WriteResult(c: Config, d: Dev, data: string, fault: Option<nat>, now: int, err: int): int {
    if data == "" then 0
    else if fault.Some? then -EFAULT
    else if PingResult(c, d, now, err) < 0 then PingResult(c, d, now, err)
    else |data|
  }

  // WDIOC_SETOPTIONS
  function SetOptions(c: Config, d: Dev, disable: bool, enable: bool, stopErr: int, startErr: int, now: int): Dev {
    if !disable then (if enable then Start(c, d, now, startErr) else d)
    else
      var e := Stop(c, d, now, stopErr);
      if StopResult(c, d, stopErr) < 0 || !enable then e else Start(c, e, now, startErr)
  }

  function SetOptionsResult(c: Config, d: Dev, disable: bool, enable: bool, stopErr: int, startErr: int,
                            now: int): int {
    if !disable then (if enable then StartResult(d, startErr) else 0)
    else if StopResult(c, d, stopErr) < 0 || !enable then StopResult(c, d, stopErr)
    else StartResult(Stop(c, d, now, stopErr), startErr)
  }

  // WDIOC_SETTIMEOUT with a timeout the core accepts, the driver having no set_timeout of its own
  function SetTimeout(c: Config, d: Dev, seconds: nat, now: int): Dev {
    Ping(c, UpdateWorker(c, d.(timeout := seconds), now), now)
  }

  // watchdog_open; moduleThere is what try_module_get returns.
  function Open(c: Config, d: Dev, moduleThere: bool, err: int, now: int): Dev {
    if d.isOpen || (!d.hwRunning && !moduleThere) then d
    else
      var e := Start(c, d.(isOpen := true, moduleRefs := d.moduleRefs + if d.hwRunning then 0 else 1), now, err);
      if StartResult(d, err) < 0 then e.(moduleRefs := e.moduleRefs - 1, isOpen := false)
      else e.(files := e.files + 1, deviceRefs := e.deviceRefs + if d.hwRunning then 0 else 1)
  }

  function OpenResult(d: Dev, moduleThere: bool, err: int): int {
    if d.isOpen || (!d.hwRunning && !moduleThere) then -EBUSY
    else if StartResult(d, err) < 0 then StartResult(d, err) else 0
  }

  predicate MayStop(c: Config, d: Dev) {
    d.active && (d.allowRelease || !c.magicClose)
  }

  // watchdog_release up to the keepalive ping for a watchdog that did not stop
  function StopForRelease(c: Config, d: Dev, err: int, now: int): Dev {
    var e := if d.active then d.(allowRelease := false) else d;
    var stopped := if MayStop(c, d) then Stop(c, e, now, err) else e;
    if ReleaseResult(c, d, err) < 0 then Ping(c, stopped, now) else stopped
  }

  function ReleaseResult(c: Config, d: Dev, err: int): int {
    if !d.active then 0 else if MayStop(c, d) then StopResult(c, d, err) else -EBUSY
  }

  // The handle is gone, and with it the references unless the hardware is marked running.
  function CloseHandle(d: Dev): Dev {
    var e := d.(isOpen := false, files := d.files - 1);
    if e.hwRunning then e else e.(moduleRefs := e.moduleRefs - 1, deviceRefs := e.deviceRefs - 1)
  }

  // watchdog_release
  function Release(c: Config, d: Dev, err: int, now: int): Dev {
    CloseHandle(UpdateWorker(c, StopForRelease(c, d, err, now), now))
  }
}
