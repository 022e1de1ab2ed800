/** koot/governance/override/nuke.py with the halt of interlock.py, as a timed state machine.
    One public call is one step, and so is one pass of the monitor loop up to its sleep. */
module DeadMansSwitch {
  import opened Bytes

  const POLL: real := 0.5

  datatype Credentials = Credentials(token: string, certHash: string)

  /** A wipe, with the heartbeat and timeout in force when it happened. */
  datatype Wipe = Wipe(automatic: bool, at: real, lastHeartbeat: real, timeout: real)

  /** threads holds the live monitor threads and the time each will next look; monitor is the thread
      arm started last. */
  datatype State = State(
    clock: real, halted: bool,
    timeout: real, lastHeartbeat: real, armed: bool, stop: bool,
    threads: map<nat, real>, monitor: Option<nat>, started: nat,
    wipes: seq<Wipe>)

  datatype Step =
    | Arm(timeout: real, creds: Credentials)
    | Heartbeat(creds: Credentials)
    | Disarm(creds: Credentials)
    | TriggerNow(creds: Credentials)
    | GlobalHalt(creds: Credentials)
    | ResetHalt(creds: Credentials)
    | Tick(dt: real)
    | MonitorPass(id: nat)

  predicate IsCall(step: Step) { !step.Tick? && !step.MonitorPass? }

  function Init(clock: real): State {
    State(clock, false, 0.0, 0.0, false, false, map[], None, 0, [])
  }

  /** verify_master_authority: nobody but the master. */
  predicate Authorised(master: Credentials, creds: Credentials): (valid: bool)
    ensures valid <==> creds == master
  {
    master.token == creds.token && master.certHash == creds.certHash
  }

  function ArmSwitch(s: State, timeout: real): State {
    var s1 := s.(timeout := timeout, lastHeartbeat := s.clock, armed := true, stop := false);
    if s.monitor.Some? && s.monitor.value in s.threads then s1
    else s1.(threads := s.threads[s.started := s.clock], monitor := Some(s.started), started := s.started + 1)
  }

  function ExecuteNuke(s: State, automatic: bool): State {
    s.(armed := false, wipes := s.wipes + [Wipe(automatic, s.clock, s.lastHeartbeat, s.timeout)])
  }

  function EndThread(s: State, id: nat): State { s.(threads := s.threads - {id}) }

  function Pass(s: State, id: nat): State {
    if s.stop || !s.armed then EndThread(s, id)
    else if s.halted then EndThread(s.(armed := false), id)
    else if s.clock - s.lastHeartbeat >= s.timeout then EndThread(ExecuteNuke(s, true), id)
    else s.(threads := s.threads[id := s.clock + POLL])
  }

  function Next(master: Credentials, s: State, step: Step): State {
    if IsCall(step) && !Authorised(master, step.creds) then s
    else
      match step
      case Arm(timeout, _) => ArmSwitch(s, timeout)
      case Heartbeat(_) => if s.armed then s.(lastHeartbeat := s.clock) else s
      case Disarm(_) => s.(armed := false, stop := true)
      case TriggerNow(_) => ExecuteNuke(s, false)
      case GlobalHalt(_) => s.(halted := true)
      case ResetHalt(_) => s.(halted := false)
      case Tick(dt) => s.(clock := s.clock + dt)
      case MonitorPass(id) => Pass(s, id)
  }

  /** A thread looks when its sleep is over, and time does not run past a thread that is due. */
  ghost predicate Enabled(s: State, step: Step) {
    match step
    case Tick(dt) => dt >= 0.0 && forall id :: id in s.threads ==> s.clock + dt <= s.threads[id]
    case MonitorPass(id) => id in s.threads && s.threads[id] == s.clock
    case _ => true
  }

  function Run(master: Credentials, s: State, steps: seq<Step>): State
    decreases |steps|
  {
    if steps == [] then s else Run(master, Next(master, s, steps[0]), steps[1..])
  }

  ghost predicate EnabledRun(master: Credentials, s: State, steps: seq<Step>)
    decreases |steps|
  {
    steps != [] ==> Enabled(s, steps[0]) && EnabledRun(master, Next(master, s, steps[0]), steps[1..])
  }

  // ---- Timing ----

  /** The latest moment the switch can still be armed without having fired. */
  function Deadline(lastHeartbeat: real, timeout: real): real {
    lastHeartbeat + (if timeout > 0.0 then timeout else 0.0) + POLL
  }

  ghost predicate Punctual(w: Wipe) {
    w.automatic ==> w.lastHeartbeat + w.timeout <= w.at <= Deadline(w.lastHeartbeat, w.timeout)
  }

  ghost predicate Inv(s: State) {
    && (forall id :: id in s.threads ==> s.monitor == Some(id) && s.clock <= s.threads[id] <= s.clock + POLL)
    && (s.monitor.Some? ==> s.monitor.value < s.started)
    && (s.armed ==>
          && !s.stop
          && s.monitor.Some? && s.monitor.value in s.threads
          && s.lastHeartbeat <= s.clock
          && s.threads[s.monitor.value] <= Deadline(s.lastHeartbeat, s.timeout))
    && (forall k :: 0 <= k < |s.wipes| ==> Punctual(s.wipes[k]))
  }

  lemma NextInv(master: Credentials, s: State, step: Step)
    requires Inv(s) && Enabled(s, step)
    ensures Inv(Next(master, s, step))
  {
    var t := Next(master, s, step);
    if t.wipes != s.wipes {
      forall k | 0 <= k < |t.wipes| ensures Punctual(t.wipes[k]) {
        if k < |s.wipes| {
          assert t.wipes[k] == s.wipes[k];
        }
      }
    }
  }

  /** Every run keeps: armed means one live monitor, the clock inside the deadline, and every
      automatic wipe between its timeout and half a second later. */
  lemma {:induction false} EveryRun(master: Credentials, s: State, steps: seq<Step>)
    requires Inv(s) && EnabledRun(master, s, steps)
    ensures var t := Run(master, s, steps);
            && Inv(t)
            && (t.armed ==> |t.threads| == 1 && t.clock <= Deadline(t.lastHeartbeat, t.timeout))
            && |t.threads| <= 1
    decreases |steps|
  {
    if steps == [] {
      AtMostOneThread(s);
    } else {
      NextInv(master, s, steps[0]);
      EveryRun(master, Next(master, s, steps[0]), steps[1..]);
    }
  }

  lemma AtMostOneThread(s: State)
    requires Inv(s)
    ensures |s.threads| <= 1 && (s.armed ==> |s.threads| == 1)
  {
    if s.threads.Keys != {} {
      var id :| id in s.threads;
      assert s.threads.Keys == {id};
    }
  }

  /** In particular from a new switch, which is disarmed and has wiped nothing. */
  lemma EveryRunFromStart(master: Credentials, clock: real, steps: seq<Step>)
    requires EnabledRun(master, Init(clock), steps)
    ensures var t := Run(master, Init(clock), steps);
            && (t.armed ==> |t.threads| == 1 && t.clock <= Deadline(t.lastHeartbeat, t.timeout))
            && forall k :: 0 <= k < |t.wipes| && t.wipes[k].automatic ==>
                 var w := t.wipes[k];
                 && w.lastHeartbeat + w.timeout <= w.at
                 && w.at <= w.lastHeartbeat + (if w.timeout > 0.0 then w.timeout else 0.0) + 0.5
    ensures !Init(clock).armed && !Init(clock).halted && Init(clock).wipes == [] && Init(clock).clock == clock
  {
    EveryRun(master, Init(clock), steps);
  }

  // ---- The switch fires ----

  /** Armed and left alone, with nothing but unauthorised calls, time and the monitor, the switch has
      fired exactly once, automatically, when the deadline has passed. */
  lemma {:induction false} SwitchFires(master: Credentials, s: State, steps: seq<Step>)
    requires Inv(s) && EnabledRun(master, s, steps) && s.armed && !s.halted
    requires forall k :: 0 <= k < |steps| && IsCall(steps[k]) ==> !Authorised(master, steps[k].creds)
    ensures var t := Run(master, s, steps);
            && (t.clock > Deadline(s.lastHeartbeat, s.timeout) ==> !t.armed)
            && (t.armed ==> t.wipes == s.wipes && t.lastHeartbeat == s.lastHeartbeat && t.timeout == s.timeout)
            && (!t.armed ==> exists at :: t.wipes == s.wipes + [Wipe(true, at, s.lastHeartbeat, s.timeout)]
                               && s.lastHeartbeat + s.timeout <= at <= Deadline(s.lastHeartbeat, s.timeout))
    decreases |steps|
  {
    if steps != [] {
      var t := Next(master, s, steps[0]);
      NextInv(master, s, steps[0]);
      if t.armed {
        SwitchFires(master, t, steps[1..]);
      } else {
        assert Punctual(t.wipes[|s.wipes|]);
        StaysQuiet(master, t, steps[1..]);
      }
    }
  }

  lemma {:induction false} StaysQuiet(master: Credentials, s: State, steps: seq<Step>)
    requires !s.armed
    requires forall k :: 0 <= k < |steps| && IsCall(steps[k]) ==> !Authorised(master, steps[k].creds)
    ensures var t := Run(master, s, steps); !t.armed && t.wipes == s.wipes
    decreases |steps|
  {
    if steps != [] {
      StaysQuiet(master, Next(master, s, steps[0]), steps[1..]);
    }
  }

  /** Nobody but the clock, the monitor and callers other than the master. */
  ghost predicate LeftAlone(master: Credentials, steps: seq<Step>) {
    forall k :: 0 <= k < |steps| && IsCall(steps[k]) ==> steps[k].creds != master
  }

  /** Armed by the master with a timeout and left alone, the system not being halted: still armed while that
      is not over; and by half a second after, the switch has fired exactly once, automatically. */
  lemma ArmedFires(master: Credentials, s: State, timeout: real, steps: seq<Step>)
    requires Inv(s) && !s.halted && LeftAlone(master, steps)
    requires EnabledRun(master, Next(master, s, Arm(timeout, master)), steps)
    ensures var t := Run(master, Next(master, s, Arm(timeout, master)), steps);
            var latest := s.clock + (if timeout > 0.0 then timeout else 0.0) + 0.5;
            && (t.clock < s.clock + timeout ==> t.armed)
            && (t.clock > latest ==> !t.armed)
            && (t.armed ==> t.wipes == s.wipes)
            && (!t.armed ==> exists at :: t.wipes == s.wipes + [Wipe(true, at, s.clock, timeout)]
                               && s.clock + timeout <= at <= latest)
  {
    var armed := Next(master, s, Arm(timeout, master));
    NextInv(master, s, Arm(timeout, master));
    SwitchFires(master, armed, steps);
    var t := Run(master, armed, steps);
    WipesInPast(master, armed, steps);
    if !t.armed {
      var at :| t.wipes == s.wipes + [Wipe(true, at, s.clock, timeout)] && s.clock + timeout <= at;
      assert t.wipes[|s.wipes|].at == at;
    }
  }

  /** New wipes happen no later than the run has come. */
  lemma {:induction false} WipesInPast(master: Credentials, s: State, steps: seq<Step>)
    requires EnabledRun(master, s, steps)
    ensures var t := Run(master, s, steps);
            && |s.wipes| <= |t.wipes| && t.wipes[..|s.wipes|] == s.wipes
            && forall k :: |s.wipes| <= k < |t.wipes| ==> t.wipes[k].at <= t.clock
    decreases |steps|
  {
    if steps != [] {
      var u := Next(master, s, steps[0]);
      WipesInPast(master, u, steps[1..]);
      ClockAdvances(master, u, steps[1..]);
      var t := Run(master, u, steps[1..]);
      assert u.wipes[..|s.wipes|] == s.wipes;
      assert t.wipes[..|s.wipes|] == t.wipes[..|u.wipes|][..|s.wipes|];
      forall k | |s.wipes| <= k < |t.wipes| ensures t.wipes[k].at <= t.clock {
        if k < |u.wipes| {
          assert t.wipes[k] == t.wipes[..|u.wipes|][k];
        }
      }
    }
  }

  /** The master lifts a halt, and may do so in any state: armed after it, the switch fires like that. */
  lemma ResetThenArmedFires(master: Credentials, s: State, timeout: real, steps: seq<Step>)
    requires Inv(s) && LeftAlone(master, steps)
    requires EnabledRun(master, s, [ResetHalt(master), Arm(timeout, master)] + steps)
    ensures var t := Run(master, s, [ResetHalt(master), Arm(timeout, master)] + steps);
            var latest := s.clock + (if timeout > 0.0 then timeout else 0.0) + 0.5;
            && !t.halted
            && (t.clock < s.clock + timeout ==> t.armed)
            && (t.clock > latest ==> !t.armed)
            && (!t.armed ==> exists at :: t.wipes == s.wipes + [Wipe(true, at, s.clock, timeout)]
                               && s.clock + timeout <= at <= latest)
  {
    var all := [ResetHalt(master), Arm(timeout, master)] + steps;
    assert all[1..] == [Arm(timeout, master)] + steps && all[1..][1..] == steps;
    var u := Next(master, s, ResetHalt(master));
    NextInv(master, s, ResetHalt(master));
    ArmedFires(master, u, timeout, steps);
    HaltKept(master, Next(master, u, Arm(timeout, master)), steps);
  }

  /** A halt that the master lifts before the monitor looks leaves no trace. */
  lemma HaltAndReset(master: Credentials, s: State)
    requires !s.halted
    ensures Run(master, s, [GlobalHalt(master), ResetHalt(master)]) == s
    ensures Run(master, s, [GlobalHalt(master)]).halted
  {
    assert [GlobalHalt(master), ResetHalt(master)][1..] == [ResetHalt(master)];
    assert [ResetHalt(master)][1..] == [] && [GlobalHalt(master)][1..] == [];
    var t := Next(master, s, GlobalHalt(master));
    assert Run(master, t, [ResetHalt(master)]) == Run(master, Next(master, t, ResetHalt(master)), []);
    assert Run(master, s, [GlobalHalt(master)]) == Run(master, t, []);
  }

  lemma {:induction false} HaltKept(master: Credentials, s: State, steps: seq<Step>)
    requires LeftAlone(master, steps)
    ensures Run(master, s, steps).halted == s.halted
    decreases |steps|
  {
    if steps != [] {
      HaltKept(master, Next(master, s, steps[0]), steps[1..]);
    }
  }

  // ---- Manual wipes ----

  function Manual(wipes: seq<Wipe>): nat {
    if wipes == [] then 0 else Manual(wipes[..|wipes| - 1]) + if wipes[|wipes| - 1].automatic then 0 else 1
  }

  lemma ManualAppend(wipes: seq<Wipe>, w: Wipe)
    ensures Manual(wipes + [w]) == Manual(wipes) + if w.automatic then 0 else 1
  {
    assert (wipes + [w])[..|wipes|] == wipes;
  }

  /** How often the master triggers. */
  function Triggers(master: Credentials, steps: seq<Step>): nat {
    if steps == [] then 0
    else (if steps[0].TriggerNow? && steps[0].creds == master then 1 else 0) + Triggers(master, steps[1..])
  }

  /** In every run, each trigger of the master wipes once, armed or not, halted or not, and nothing else wipes
      by hand. */
  lemma {:induction false} ManualExactly(master: Credentials, s: State, steps: seq<Step>)
    ensures Manual(Run(master, s, steps).wipes) == Manual(s.wipes) + Triggers(master, steps)
    decreases |steps|
  {
    if steps != [] {
      StepManual(master, s, steps[0]);
      hide Next, Manual;
      ManualExactly(master, Next(master, s, steps[0]), steps[1..]);
    }
  }

  lemma StepManual(master: Credentials, s: State, step: Step)
    ensures Manual(Next(master, s, step).wipes)
         == Manual(s.wipes) + if step.TriggerNow? && step.creds == master then 1 else 0
  {
    ManualAppend(s.wipes, Wipe(true, s.clock, s.lastHeartbeat, s.timeout));
    ManualAppend(s.wipes, Wipe(false, s.clock, s.lastHeartbeat, s.timeout));
  }

  /** It wipes at once and disarms the switch: no automatic wipe follows until the master arms it again. */
  lemma TriggerWipesAndDisarms(master: Credentials, s: State, steps: seq<Step>)
    requires !Includes(master, steps, IsArm)
    ensures var t := Next(master, s, TriggerNow(master));
            && |t.wipes| == |s.wipes| + 1 && t.wipes[..|s.wipes|] == s.wipes
            && !t.wipes[|s.wipes|].automatic && t.wipes[|s.wipes|].at == s.clock
            && Automatic(Run(master, t, steps).wipes) == Automatic(s.wipes)
  {
    AutomaticAppend(s.wipes, Wipe(false, s.clock, s.lastHeartbeat, s.timeout));
    WithoutArm(master, Next(master, s, TriggerNow(master)), steps);
  }

  // ---- What a call achieves ----

  /** The master arms the switch: no automatic wipe happens before the timeout given is over, for as long as
      the master does not arm it anew; and that timeout stays in force. */
  lemma ArmPostpones(master: Credentials, s: State, timeout: real, steps: seq<Step>)
    requires Inv(s)
    requires var t := Next(master, s, Arm(timeout, master));
             EnabledRun(master, t, steps) && !Includes(master, steps, IsArm)
    ensures var t := Run(master, Next(master, s, Arm(timeout, master)), steps);
            && t.timeout == timeout
            && (t.clock < s.clock + timeout ==> Automatic(t.wipes) == Automatic(s.wipes))
  {
    var t := Next(master, s, Arm(timeout, master));
    TimeoutKept(master, t, steps);
    if Run(master, t, steps).clock < s.clock + timeout {
      NoWipeBefore(master, t, steps, s.clock);
    }
  }

  /** The master's heartbeat: the timeout in force counts from then on. */
  lemma HeartbeatPostpones(master: Credentials, s: State, steps: seq<Step>)
    requires Inv(s) && s.armed
    requires var t := Next(master, s, Heartbeat(master));
             EnabledRun(master, t, steps) && !Includes(master, steps, IsArm)
    ensures var t := Run(master, Next(master, s, Heartbeat(master)), steps);
            && t.timeout == s.timeout
            && (t.clock < s.clock + s.timeout ==> Automatic(t.wipes) == Automatic(s.wipes))
  {
    var t := Next(master, s, Heartbeat(master));
    TimeoutKept(master, t, steps);
    if Run(master, t, steps).clock < s.clock + s.timeout {
      NoWipeBefore(master, t, steps, s.clock);
    }
  }

  lemma {:induction false} TimeoutKept(master: Credentials, s: State, steps: seq<Step>)
    requires !Includes(master, steps, IsArm)
    ensures Run(master, s, steps).timeout == s.timeout
    decreases |steps|
  {
    if steps != [] {
      TimeoutKept(master, Next(master, s, steps[0]), steps[1..]);
    }
  }

  lemma {:induction false} NoWipeBefore(master: Credentials, s: State, steps: seq<Step>, beat: real)
    requires EnabledRun(master, s, steps) && !Includes(master, steps, IsArm)
    requires beat <= s.lastHeartbeat && beat <= s.clock && Run(master, s, steps).clock < beat + s.timeout
    ensures Automatic(Run(master, s, steps).wipes) == Automatic(s.wipes)
    decreases |steps|
  {
    ClockAdvances(master, s, steps);
    if steps != [] {
      WipeNeeds(master, s, steps[0]);
      hide Automatic;
      NoWipeBefore(master, Next(master, s, steps[0]), steps[1..], beat);
    }
  }

  lemma {:induction false} ClockAdvances(master: Credentials, s: State, steps: seq<Step>)
    requires EnabledRun(master, s, steps)
    ensures s.clock <= Run(master, s, steps).clock
    decreases |steps|
  {
    if steps != [] {
      ClockAdvances(master, Next(master, s, steps[0]), steps[1..]);
    }
  }

  /** After an authorised disarm there is no automatic wipe until an authorised arm, and after an
      authorised halt none until an authorised reset. */
  lemma DisarmAndHaltHold(master: Credentials, s: State, step: Step, steps: seq<Step>)
    requires (step.Disarm? || step.GlobalHalt?) && Authorised(master, step.creds)
    requires !Includes(master, steps, if step.Disarm? then IsArm else IsReset)
    ensures Automatic(Run(master, Next(master, s, step), steps).wipes) == Automatic(s.wipes)
  {
    if step.Disarm? {
      WithoutArm(master, Next(master, s, step), steps);
    } else {
      WithoutReset(master, Next(master, s, step), steps);
    }
  }

  // ---- Halting ----

  function Automatic(wipes: seq<Wipe>): nat {
    if wipes == [] then 0 else Automatic(wipes[..|wipes| - 1]) + if wipes[|wipes| - 1].automatic then 1 else 0
  }

  lemma AutomaticAppend(wipes: seq<Wipe>, w: Wipe)
    ensures Automatic(wipes + [w]) == Automatic(wipes) + if w.automatic then 1 else 0
  {
    assert (wipes + [w])[..|wipes|] == wipes;
  }

  /** Some step of the run is an authorised call of the kind. */
  predicate Includes(master: Credentials, steps: seq<Step>, kind: Step -> bool) {
    steps != [] &&
      ((kind(steps[0]) && IsCall(steps[0]) && Authorised(master, steps[0].creds)) || Includes(master, steps[1..], kind))
  }

  predicate IsArm(step: Step) { step.Arm? }

  predicate IsReset(step: Step) { step.ResetHalt? }

  /** A pass that sees a halt leaves the switch disarmed and the system halted. */
  lemma PassSeesHalt(master: Credentials, s: State, id: nat)
    requires Inv(s) && Enabled(s, MonitorPass(id)) && s.armed && s.halted
    ensures var t := Next(master, s, MonitorPass(id));
            !t.armed && t.halted && t.threads == map[] && t.wipes == s.wipes
  {
    forall i | i in s.threads ensures i == id {
      assert s.monitor == Some(i) && s.monitor == Some(id);
    }
    assert s.threads.Keys == {id};
  }

  /** After a pass that saw a halt no automatic wipe happens until both an authorised arm and an
      authorised reset. */
  lemma AfterHalt(master: Credentials, s: State, id: nat, steps: seq<Step>)
    requires Inv(s) && Enabled(s, MonitorPass(id)) && s.armed && s.halted
    requires Automatic(Run(master, s, [MonitorPass(id)] + steps).wipes) != Automatic(s.wipes)
    ensures Includes(master, steps, IsArm) && Includes(master, steps, IsReset)
  {
    PassSeesHalt(master, s, id);
    assert ([MonitorPass(id)] + steps)[1..] == steps;
    hide Next;
    DisarmedAndHalted(master, Next(master, s, MonitorPass(id)), steps);
  }

  lemma DisarmedAndHalted(master: Credentials, s: State, steps: seq<Step>)
    requires !s.armed && s.halted
    requires Automatic(Run(master, s, steps).wipes) != Automatic(s.wipes)
    ensures Includes(master, steps, IsArm) && Includes(master, steps, IsReset)
  {
    if !Includes(master, steps, IsArm) {
      WithoutArm(master, s, steps);
    }
    if !Includes(master, steps, IsReset) {
      WithoutReset(master, s, steps);
    }
  }

  /** What a step needs to wipe automatically, to arm, and to lift a halt. */
  lemma WipeNeeds(master: Credentials, s: State, step: Step)
    ensures var t := Next(master, s, step);
            && (Automatic(t.wipes) != Automatic(s.wipes) ==>
                  s.armed && !s.halted && s.clock - s.lastHeartbeat >= s.timeout)
            && (t.armed && !s.armed ==> Includes(master, [step], IsArm))
            && (s.halted && !t.halted ==> Includes(master, [step], IsReset))
  {
    AutomaticAppend(s.wipes, Wipe(true, s.clock, s.lastHeartbeat, s.timeout));
    AutomaticAppend(s.wipes, Wipe(false, s.clock, s.lastHeartbeat, s.timeout));
  }

  lemma {:induction false} WithoutArm(master: Credentials, s: State, steps: seq<Step>)
    requires !s.armed && !Includes(master, steps, IsArm)
    ensures Automatic(Run(master, s, steps).wipes) == Automatic(s.wipes)
    decreases |steps|
  {
    if steps != [] {
      var t := Next(master, s, steps[0]);
      WipeNeeds(master, s, steps[0]);
      hide Next;
      WithoutArm(master, t, steps[1..]);
    }
  }

  lemma {:induction false} WithoutReset(master: Credentials, s: State, steps: seq<Step>)
    requires s.halted && !Includes(master, steps, IsReset)
    ensures Automatic(Run(master, s, steps).wipes) == Automatic(s.wipes)
    decreases |steps|
  {
    if steps != [] {
      var t := Next(master, s, steps[0]);
      WipeNeeds(master, s, steps[0]);
      hide Next;
      WithoutReset(master, t, steps[1..]);
    }
  }

  // ---- Unauthorised calls ----

  /** A call with a token or a certificate hash that is not the master's. */
  predicate Foreign(master: Credentials, step: Step) {
    IsCall(step) && (step.creds.token != master.token || step.creds.certHash != master.certHash)
  }

  /** The run with every such call taken out. */
  function Erase(master: Credentials, steps: seq<Step>): seq<Step> {
    if steps == [] then []
    else (if Foreign(master, steps[0]) then [] else [steps[0]]) + Erase(master, steps[1..])
  }

  lemma {:induction false} UnauthorisedHaveNoEffect(master: Credentials, s: State, steps: seq<Step>)
    ensures Run(master, s, Erase(master, steps)) == Run(master, s, steps)
    ensures EnabledRun(master, s, steps) ==> EnabledRun(master, s, Erase(master, steps))
    decreases |steps|
  {
    if steps != [] {
      UnauthorisedHaveNoEffect(master, Next(master, s, steps[0]), steps[1..]);
      if !Foreign(master, steps[0]) {
        assert Erase(master, steps)[1..] == Erase(master, steps[1..]);
      } else {
        assert Erase(master, steps) == Erase(master, steps[1..]);
      }
    }
  }
}
