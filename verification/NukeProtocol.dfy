/** koot/governance/override/nuke.py and the authority and halt of interlock.py: the objects
    whose calls are the steps of DeadMansSwitch. The clock is a parameter. */
module NukeProtocols {
  import opened Bytes
  import opened DeadMansSwitch

  class OverrideMatrix {
    const master: Credentials
    var isHalted: bool

    constructor (adminToken: string, masterCertHash: string)
      ensures master == Credentials(adminToken, masterCertHash) && !isHalted
    {
      master := Credentials(adminToken, masterCertHash);
      isHalted := false;
    }

    method VerifyMasterAuthority(creds: Credentials) returns (valid: bool)
      ensures valid <==> creds == master
    {
      var validToken := master.token == creds.token;
      var validCert := master.certHash == creds.certHash;
      return validToken && validCert;
    }

    method TriggerGlobalHalt(creds: Credentials) returns (ok: bool)
      modifies this`isHalted
      ensures ok == (creds == master) && isHalted == (old(isHalted) || ok)
    {
      ok := VerifyMasterAuthority(creds);
      if !ok {
        return;
      }
      isHalted := true;
    }

    method ResetHaltState(creds: Credentials) returns (ok: bool)
      modifies this`isHalted
      ensures ok == (creds == master) && isHalted == (old(isHalted) && !ok)
    {
      ok := VerifyMasterAuthority(creds);
      if ok {
        isHalted := false;
      }
    }
  }

  class NukeProtocol {
    const matrix: OverrideMatrix
    var timeout: real
    var lastHeartbeat: real
    var isArmed: bool
    var stopEvent: bool
    var threads: map<nat, real>
    var monitor: Option<nat>
    var started: nat
    ghost var wipes: seq<Wipe>

    ghost function View(now: real): State
      reads this, matrix
    {
      State(now, matrix.isHalted, timeout, lastHeartbeat, isArmed, stopEvent, threads, monitor, started, wipes)
    }

    constructor (matrix: OverrideMatrix, ghost now: real)
      ensures this.matrix == matrix && View(now) == Init(now).(halted := matrix.isHalted)
    {
      this.matrix := matrix;
      timeout, lastHeartbeat, isArmed, stopEvent := 0.0, 0.0, false, false;
      threads, monitor, started, wipes := map[], None, 0, [];
    }

    method ArmProtocol(timeoutSeconds: real, creds: Credentials, now: real) returns (ok: bool)
      modifies this
      ensures ok == (creds == matrix.master)
      ensures View(now) == Next(matrix.master, old(View(now)), Arm(timeoutSeconds, creds))
    {
      ok := matrix.VerifyMasterAuthority(creds);
      if !ok {
        return;
      }
      timeout := timeoutSeconds;
      lastHeartbeat := now;
      isArmed := true;
      stopEvent := false;
      if monitor.None? || monitor.value !in threads {
        monitor := Some(started);
        threads := threads[started := now];
        started := started + 1;
      }
    }

    method RecordHeartbeat(creds: Credentials, now: real) returns (ok: bool)
      modifies this
      ensures ok == (creds == matrix.master && old(isArmed))
      ensures View(now) == Next(matrix.master, old(View(now)), Heartbeat(creds))
    {
      ok := matrix.VerifyMasterAuthority(creds);
      if !ok {
        return;
      }
      if isArmed {
        lastHeartbeat := now;
        return true;
      }
      return false;
    }

    method DisarmProtocol(creds: Credentials, ghost now: real) returns (ok: bool)
      modifies this
      ensures ok == (creds == matrix.master)
      ensures View(now) == Next(matrix.master, old(View(now)), Disarm(creds))
    {
      ok := matrix.VerifyMasterAuthority(creds);
      if !ok {
        return;
      }
      isArmed := false;
      stopEvent := true;
    }

    /** One turn of _monitor_loop in the given thread: either the thread ends or it sleeps. */
    method MonitorTurn(id: nat, now: real)
      requires id in threads
      modifies this
      ensures View(now) == Next(matrix.master, old(View(now)), MonitorPass(id))
    {
      if stopEvent {
        threads := threads - {id};
        return;
      }
      if !isArmed {
        threads := threads - {id};
        return;
      }
      if matrix.isHalted {
        isArmed := false;
        threads := threads - {id};
        return;
      }
      var elapsed := now - lastHeartbeat;
      if elapsed >= timeout {
        Execute(true, now);
        threads := threads - {id};
        return;
      }
      threads := threads[id := now + POLL];
    }

    method Execute(ghost automatic: bool, ghost now: real)
      modifies this
      ensures View(now) == ExecuteNuke(old(View(now)), automatic)
    {
      isArmed := false;
      wipes := wipes + [Wipe(automatic, now, lastHeartbeat, timeout)];
    }

    method TriggerImmediately(creds: Credentials, ghost now: real) returns (ok: bool)
      modifies this
      ensures ok == (creds == matrix.master)
      ensures View(now) == Next(matrix.master, old(View(now)), TriggerNow(creds))
    {
      ok := matrix.VerifyMasterAuthority(creds);
      if !ok {
        return;
      }
      Execute(false, now);
    }
  }
}
