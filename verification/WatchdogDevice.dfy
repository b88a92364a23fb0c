/** The watchdog core as the code has it: one object whose operations update its fields.  Every
    operation is proved to do what module WatchdogState says. */
module WatchdogDevice {
  import opened Basics
  import opened WatchdogState

  class Watchdog {
    const c: Config
    var timeout: nat
    var active: bool
    var hwRunning: bool
    var isOpen: bool
    var allowRelease: bool
    var keepalive: bool
    var lastKeepalive: int
    var lastHw: int
    var timer: Option<int>
    var files: int
    var moduleRefs: int
    var deviceRefs: int
    ghost var fed: int

    // watchdog_cdev_register: the last heartbeat counts as just before now, and running hardware
    // is pinged at once if the core is to keep it alive before a user takes over.
    constructor (c: Config, timeout: nat, hwRunning: bool, handleBootEnabled: bool, now: int)
      ensures this.c == c
      ensures Snapshot() == Dev(timeout, false, hwRunning, false, false, false, 0, now - 1,
                                if hwRunning && handleBootEnabled then Some(now) else None, now - 1,
                                0, if hwRunning then 1 else 0, if hwRunning then 1 else 0)
    {
      this.c, this.timeout, this.hwRunning := c, timeout, hwRunning;
      active, isOpen, allowRelease, keepalive := false, false, false, false;
      lastKeepalive, lastHw, fed := 0, now - 1, now - 1;
      files, moduleRefs, deviceRefs, timer := 0, 0, 0, None;
      if hwRunning {
        moduleRefs, deviceRefs := 1, 1;
        if handleBootEnabled {
          timer := Some(now);
        }
      }
    }

    ghost function Snapshot(): Dev
      reads this
    {
      Dev(timeout, active, hwRunning, isOpen, allowRelease, keepalive, lastKeepalive, lastHw, timer,
          fed, files, moduleRefs, deviceRefs)
    }

    // unsigned int t = wdd->timeout * 1000
    function TimeoutInMs(): nat
      reads this
      ensures TimeoutInMs() == TimeoutMs(Snapshot())
    {
      timeout * 1000 % 0x1_0000_0000
    }

    method UpdateTimer(now: int)
      modifies this`timer
      ensures Snapshot() == UpdateWorker(c, old(Snapshot()), now)
    {
      var t := TimeoutInMs();
      if (c.maxHw != 0 && active && t > c.maxHw) || (t != 0 && !active && hwRunning) {
        var heartbeat := MinNotZero(t, c.maxHw);
        var delay := Ms(heartbeat / 2);
        if active {
          var lastHeartbeat := lastKeepalive + Ms(t) - Ms(heartbeat);
          if lastHeartbeat - now < delay {
            delay := lastHeartbeat - now;
          }
        }
        if delay > 0 {
          timer := Some(now + delay);
        }
      } else {
        timer := None;
      }
    }

    // __watchdog_ping; err is what the driver returns.
    method FeedHardware(now: int, err: int) returns (r: int)
      modifies this
      ensures Snapshot() == PingHardware(c, old(Snapshot()), now)
      ensures r == if old(lastHw) + Ms(c.minHw) > now then 0 else err
    {
      var earliest := lastHw + Ms(c.minHw);
      if earliest > now {
        timer := Some(earliest);
        return 0;
      }
      lastHw := now;
      fed := now;
      UpdateTimer(now);
      r := err;
    }

    method UserPing(now: int, err: int) returns (r: int)
      modifies this
      ensures Snapshot() == Ping(c, old(Snapshot()), now) && r == PingResult(c, old(Snapshot()), now, err)
      ensures r == if old(active || hwRunning) && old(lastHw) + Ms(c.minHw) <= now then err else 0
    {
      if !active && !hwRunning {
        return 0;
      }
      keepalive := true;
      lastKeepalive := now;
      r := FeedHardware(now, err);
    }

    // watchdog_timer_expired, then watchdog_ping_work
    method TimerExpired(now: int, err: int)
      modifies this
      ensures Snapshot() == TimerFires(c, old(Snapshot()), now)
    {
      timer := None;
      if active || hwRunning {
        var r := FeedHardware(now, err);
      }
    }

    method StartWatchdog(now: int, err: int) returns (r: int)
      modifies this
      ensures Snapshot() == Start(c, old(Snapshot()), now, err) && r == StartResult(old(Snapshot()), err)
      ensures r == if old(active) then 0 else err
    {
      if active {
        return 0;
      }
      keepalive := true;
      r := err;
      if r == 0 {
        active := true;
        lastKeepalive, lastHw := now, now;
        fed := now;
        UpdateTimer(now);
      }
    }

    method StopWatchdog(now: int, err: int) returns (r: int)
      modifies this
      ensures Snapshot() == Stop(c, old(Snapshot()), now, err) && r == StopResult(c, old(Snapshot()), err)
      ensures r == if !old(active) then 0 else if c.noWayOut then -16 else if c.hasStop then err else 0
      ensures old(active) ==> (active <==> r != 0)
    {
      r := 0;
      if !active {
        return;
      }
      if c.noWayOut {
        return -EBUSY;
      }
      if c.hasStop {
        hwRunning := false;
        r := err;
      } else {
        hwRunning := true;
      }
      if r == 0 {
        active := false;
        UpdateTimer(now);
      }
    }

    // watchdog_write; at fault, if any, get_user fails.
    method WriteData(data: string, fault: Option<nat>, now: int, err: int) returns (r: int)
      requires fault.Some? ==> fault.value < |data|
      modifies this
      ensures Snapshot() == Write(c, old(Snapshot()), data, fault, now)
      ensures r == WriteResult(c, old(Snapshot()), data, fault, now, err)
      ensures data == "" ==> r == 0
      ensures fault.Some? ==> r == -14
      ensures data != "" && fault.None? ==> r == |data| || r == err < 0
    {
      if |data| == 0 {
        return 0;
      }
      allowRelease := false;
      var i := 0;
      while i != |data|
        invariant i <= |data| && (fault.Some? ==> i <= fault.value)
        invariant Snapshot() == old(Snapshot()).(allowRelease := 'V' in data[..i])
        decreases |data| - i
      {
        if fault == Some(i) {
          return -EFAULT;
        }
        if data[i] == 'V' {
          allowRelease := true;
        }
        i := i + 1;
      }
      assert data[..|data|] == data;
      r := UserPing(now, err);
      if r >= 0 {
        r := |data|;
      }
    }

    method SetOptionsIoctl(disable: bool, enable: bool, stopErr: int, startErr: int, now: int) returns (r: int)
      modifies this
      ensures Snapshot() == SetOptions(c, old(Snapshot()), disable, enable, stopErr, startErr, now)
      ensures r == SetOptionsResult(c, old(Snapshot()), disable, enable, stopErr, startErr, now)
      ensures var stop := if !disable || !old(active) then 0
                          else if c.noWayOut then -16 else if c.hasStop then stopErr else 0;
              var stillActive := old(active) && (!disable || stop != 0);
              r == if stop < 0 || !enable then stop else if stillActive then 0 else startErr
    {
      r := 0;
      if disable {
        r := StopWatchdog(now, stopErr);
        if r < 0 {
          return;
        }
      }
      if enable {
        r := StartWatchdog(now, startErr);
      }
    }

    method SetTimeoutIoctl(seconds: nat, now: int, err: int) returns (r: int)
      modifies this
      ensures Snapshot() == SetTimeout(c, old(Snapshot()), seconds, now)
              && r == PingResult(c, old(Snapshot()), now, err)
      ensures r == if old(active || hwRunning) && old(lastHw) + Ms(c.minHw) <= now then err else 0
    {
      timeout := seconds;
      UpdateTimer(now);
      r := UserPing(now, err);
    }

    method OpenDevice(moduleThere: bool, err: int, now: int) returns (r: int)
      modifies this
      ensures Snapshot() == Open(c, old(Snapshot()), moduleThere, err, now)
      ensures r == OpenResult(old(Snapshot()), moduleThere, err)
      ensures old(isOpen || (!hwRunning && !moduleThere)) ==> r == -16
      ensures !old(isOpen || (!hwRunning && !moduleThere)) ==> r == if err < 0 && !old(active) then err else 0
      ensures r == 0 <==> files == old(files) + 1
    {
      if isOpen {
        return -EBUSY;
      }
      isOpen := true;
      var running := hwRunning;
      if !running {
        if !moduleThere {
          isOpen := false;
          return -EBUSY;
        }
        moduleRefs := moduleRefs + 1;
      }
      r := StartWatchdog(now, err);
      if r < 0 {
        moduleRefs := moduleRefs - 1;
        isOpen := false;
        return;
      }
      files := files + 1;
      if !running {
        deviceRefs := deviceRefs + 1;
      }
      r := 0;
    }

    // Lines 873-883 of watchdog_release
    method StopOrPing(err: int, pingErr: int, now: int)
      modifies this
      ensures Snapshot() == StopForRelease(c, old(Snapshot()), err, now)
    {
      hide UpdateWorker, Ping, Stop;
      var r := -EBUSY;
      if !active {
        r := 0;
      } else {
        var magic := allowRelease;
        allowRelease := false;
        if magic || !c.magicClose {
          r := StopWatchdog(now, err);
        }
      }
      if r < 0 {
        var p := UserPing(now, pingErr);
      }
    }

    method ReleaseDevice(err: int, pingErr: int, now: int)
      modifies this
      ensures Snapshot() == Release(c, old(Snapshot()), err, now)
    {
      hide UpdateWorker, StopForRelease;
      StopOrPing(err, pingErr, now);
      UpdateTimer(now);
      isOpen := false;
      files := files - 1;
      if !hwRunning {
        moduleRefs := moduleRefs - 1;
        deviceRefs := deviceRefs - 1;
      }
    }
  }
}
