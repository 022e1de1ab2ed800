/** When the background sealers of koot/governance/audit/log.py come to rest, from any state and with any
    stamps: writing a seal may itself rotate the log and so start another sealer. */
module AuditSealing {
  import opened Bytes
  import opened AuditProtocol

  predicate Background(step: Step) {
    step.HashFile? || step.RenameFile? || step.WriteSeal?
  }

  /** A run of the sealers alone, each step made by a sealer that is at that point of its code. */
  predicate BackgroundRun(env: Env, s: State, steps: seq<Step>)
    decreases |steps|
  {
    steps != [] ==>
      && Background(steps[0]) && Enabled(s, steps[0])
      && BackgroundRun(env, Next(env, s, steps[0]), steps[1..])
  }

  /** A start record of a rotation and a seal record together stay below the size limit. */
  ghost predicate Roomy(env: Env) {
    forall a: Record, b: Record :: a.EpochStart? && a.prevHash.Pending? && b.SealEntry? ==>
                                     |env.line(a)| + |env.line(b)| < env.maxSize
  }

  /** Any start record and a seal record together reach it. */
  ghost predicate Cramped(env: Env) {
    forall a: Record, b: Record :: a.EpochStart? && b.SealEntry? ==> |env.line(a)| + |env.line(b)| >= env.maxSize
  }

  /** The current file begins with its start record. */
  predicate Started(s: State) {
    Current in s.files && s.files[Current] != [] && s.files[Current][0].EpochStart?
  }

  function Total(sealers: seq<Sealer>, weight: Phase -> nat): nat {
    if sealers == [] then 0 else Total(sealers[..|sealers| - 1], weight) + weight(sealers[|sealers| - 1].phase)
  }

  /** Large enough that finishing a sealer pays for the sealer a rotation may start. */
  function Work(phase: Phase): nat {
    match phase
    case Spawned => 6
    case Hashed(_) => 5
    case Renamed(_) => 4
    case _ => 0
  }

  function IsRenamed(phase: Phase): nat { if phase.Renamed? then 1 else 0 }

  predicate BeforeRename(phase: Phase) { phase.Spawned? || phase.Hashed? }

  /** Stamps with a file in processing and a sealer that has still to rename it. However many
      sealers of a stamp there are, one of them will rename the file and the others then fail. */
  function LiveStamps(s: State): set<Time> {
    set k | 0 <= k < |s.sealers| && InProcessing(s, k) :: s.sealers[k].stamp
  }

  predicate InProcessing(s: State, k: nat)
    requires k < |s.sealers|
  {
    BeforeRename(s.sealers[k].phase) && Processing(s.sealers[k].stamp) in s.files
  }

  /** The seals that the sealers there are will write. */
  function LiveSeals(s: State): nat { |LiveStamps(s)| + Total(s.sealers, IsRenamed) }

  function Full(env: Env, s: State): nat { if Oversize(env, s) then 1 else 0 }

  function SealBudget(env: Env, s: State): nat { 2 * LiveSeals(s) + Full(env, s) }

  function StepBudget(env: Env, s: State): nat { Total(s.sealers, Work) + 3 * Full(env, s) }

  function SealsWritten(steps: seq<Step>): nat {
    if steps == [] then 0 else (if steps[0].WriteSeal? then 1 else 0) + SealsWritten(steps[1..])
  }

  lemma {:induction false} TotalUpdate(sealers: seq<Sealer>, k: nat, x: Sealer, weight: Phase -> nat)
    requires k < |sealers|
    ensures Total(sealers[k := x], weight) == Total(sealers, weight) - weight(sealers[k].phase) + weight(x.phase)
  {
    var n := |sealers| - 1;
    if k < n {
      TotalUpdate(sealers[..n], k, x, weight);
      assert sealers[k := x][..n] == sealers[..n][k := x];
    } else {
      assert sealers[k := x][..n] == sealers[..n];
    }
  }

  lemma TotalAppend(sealers: seq<Sealer>, x: Sealer, weight: Phase -> nat)
    ensures Total(sealers + [x], weight) == Total(sealers, weight) + weight(x.phase)
  {
    assert (sealers + [x])[..|sealers|] == sealers;
  }

  lemma SizeAtLeastFirst(env: Env, f: File)
    requires f != []
    ensures Size(env, f) >= |env.line(f[0])|
  {
    if |f| > 1 {
      SizeAtLeastFirst(env, f[..|f| - 1]);
    }
  }

  // ---- One step ----

  lemma LiveUpdate(s: State, t: State, k: nat, gone: set<Time>)
    requires k < |s.sealers| && |t.sealers| == |s.sealers|
    requires forall j :: 0 <= j < |s.sealers| ==> t.sealers[j].stamp == s.sealers[j].stamp
    requires forall j :: 0 <= j < |s.sealers| ==>
               (InProcessing(t, j) <==> InProcessing(s, j) && s.sealers[j].stamp !in gone)
    ensures LiveStamps(t) == LiveStamps(s) - gone
  {
    forall stamp ensures stamp in LiveStamps(t) <==> stamp in LiveStamps(s) - gone {
      if stamp in LiveStamps(s) - gone {
        var j :| 0 <= j < |s.sealers| && InProcessing(s, j) && s.sealers[j].stamp == stamp;
        assert InProcessing(t, j);
      }
      if stamp in LiveStamps(t) {
        var j :| 0 <= j < |t.sealers| && InProcessing(t, j) && t.sealers[j].stamp == stamp;
        assert InProcessing(s, j);
      }
    }
  }

  /** A sealer's two steps before its seal leave the current file and the seals to come alone. */
  lemma QuietStep(env: Env, s: State, step: Step)
    requires (step.HashFile? || step.RenameFile?) && Enabled(s, step)
    ensures var t := Next(env, s, step);
            && LiveSeals(t) == LiveSeals(s) && Full(env, t) == Full(env, s)
            && Total(t.sealers, Work) < Total(s.sealers, Work)
            && (Started(s) ==> Started(t))
  {
    hide LiveStamps, Total;
    var t, k := Next(env, s, step), step.k;
    TotalUpdate(s.sealers, k, t.sealers[k], IsRenamed);
    TotalUpdate(s.sealers, k, t.sealers[k], Work);
    QuietLive(env, s, step);
  }

  /** The rename takes one stamp out and puts one seal in its place; nothing else changes them. */
  lemma QuietLive(env: Env, s: State, step: Step)
    requires (step.HashFile? || step.RenameFile?) && Enabled(s, step)
    ensures var x := s.sealers[step.k];
            && (step.RenameFile? && Processing(x.stamp) in s.files ==> x.stamp in LiveStamps(s))
            && LiveStamps(Next(env, s, step)) ==
                 LiveStamps(s) - if step.RenameFile? && Processing(x.stamp) in s.files then {x.stamp} else {}
  {
    var t, k := Next(env, s, step), step.k;
    var stamp := s.sealers[k].stamp;
    hide LiveStamps;
    if step.RenameFile? && Processing(stamp) in s.files {
      IsLive(s, k);
      LiveUpdate(s, t, k, {stamp});
    } else {
      LiveUpdate(s, t, k, {});
    }
  }

  lemma IsLive(s: State, k: nat)
    requires k < |s.sealers| && InProcessing(s, k)
    ensures s.sealers[k].stamp in LiveStamps(s)
  {
  }

  lemma RotatedLive(s: State, clock: Clock)
    requires Current in s.files
    ensures var t := Rotate(s, clock);
            && LiveSeals(t) == LiveSeals(s) + (if clock.stamp in LiveStamps(s) then 0 else 1)
            && Total(t.sealers, Work) == Total(s.sealers, Work) + 6
  {
    hide LiveStamps, Total;
    TotalAppend(s.sealers, Sealer(clock.stamp, Spawned), IsRenamed);
    TotalAppend(s.sealers, Sealer(clock.stamp, Spawned), Work);
    RotatedStamps(s, clock);
    if clock.stamp in LiveStamps(s) {
      assert LiveStamps(s) + {clock.stamp} == LiveStamps(s);
    }
  }

  lemma RotatedStamps(s: State, clock: Clock)
    requires Current in s.files
    ensures LiveStamps(Rotate(s, clock)) == LiveStamps(s) + {clock.stamp}
  {
    var t, n := Rotate(s, clock), |s.sealers|;
    forall stamp ensures stamp in LiveStamps(t) <==> stamp in LiveStamps(s) || stamp == clock.stamp {
      if stamp in LiveStamps(s) {
        var j :| 0 <= j < n && InProcessing(s, j) && s.sealers[j].stamp == stamp;
        assert t.sealers[j] == s.sealers[j] && InProcessing(t, j);
      }
      if stamp == clock.stamp {
        assert InProcessing(t, n) && t.sealers[n].stamp == stamp;
      }
      if stamp in LiveStamps(t) {
        var j :| 0 <= j <= n && InProcessing(t, j) && t.sealers[j].stamp == stamp;
        assert j < n ==> t.sealers[j] == s.sealers[j] && (InProcessing(s, j) || stamp == clock.stamp);
      }
    }
  }

  lemma SealedLive(s: State, t: State, k: nat, digest: Digest)
    requires k < |s.sealers| && s.sealers[k].phase.Renamed?
    requires t.sealers == s.sealers[k := s.sealers[k].(phase := Done(digest))]
    requires forall stamp: Time :: Processing(stamp) in t.files <==> Processing(stamp) in s.files
    ensures LiveSeals(t) == LiveSeals(s) - 1
    ensures Total(t.sealers, Work) == Total(s.sealers, Work) - 4
  {
    TotalUpdate(s.sealers, k, t.sealers[k], IsRenamed);
    TotalUpdate(s.sealers, k, t.sealers[k], Work);
    LiveUpdate(s, t, k, {});
  }

  /** Writing a seal finishes one sealer, and starts one exactly when the current file was full; that one
      will write a seal of its own unless its stamp is live already. */
  lemma SealStep(env: Env, s: State, step: Step)
    requires step.WriteSeal? && Enabled(s, step)
    ensures var t := Next(env, s, step);
            var merged := step.clock.stamp in LiveStamps(s);
            && LiveSeals(t) == LiveSeals(s) - 1 + (if merged then 0 else Full(env, s))
            && Total(t.sealers, Work) == Total(s.sealers, Work) - 4 + 6 * Full(env, s)
    ensures Roomy(env) && Full(env, s) == 1 ==> Full(env, Next(env, s, step)) == 0
    ensures Started(s) ==> Started(Next(env, s, step)) && (Cramped(env) ==> Full(env, Next(env, s, step)) == 1)
  {
    hide LiveStamps, LiveSeals, Total, Size;
    var k, clock := step.k, step.clock;
    var s1 := if Oversize(env, s) then Rotate(s, clock) else s;
    assert s1.sealers[k] == s.sealers[k];
    if Oversize(env, s) {
      RotatedLive(s, clock);
    }
    SealedLive(s1, Next(env, s, step), k, s.sealers[k].phase.digest);
    SealSize(env, s, step);
  }

  lemma SealSize(env: Env, s: State, step: Step)
    requires step.WriteSeal? && Enabled(s, step)
    ensures Roomy(env) && Full(env, s) == 1 ==> Full(env, Next(env, s, step)) == 0
    ensures Started(s) ==> Started(Next(env, s, step)) && (Cramped(env) ==> Full(env, Next(env, s, step)) == 1)
  {
    var clock := step.clock;
    var r := SealEntry(clock.entry, s.sealers[step.k].stamp, s.sealers[step.k].phase.digest);
    var s1 := if Oversize(env, s) then Rotate(s, clock) else s;
    var f := if Current in s1.files then s1.files[Current] else [];
    assert Next(env, s, step).files[Current] == f + [r];
    SizeAppend(env, f, r);
    if Oversize(env, s) {
      SizeAppend(env, [], EpochStart(clock.start, Pending));
      assert f == [] + [EpochStart(clock.start, Pending)];
    }
    if f != [] {
      SizeAtLeastFirst(env, f);
    }
  }

  // ---- Runs of the sealers ----

  /** With room for both records, sealing always comes to rest: from any state, with any stamps, at most
      2 * live + 1 more seals are written, in a bounded number of steps. */
  lemma {:induction false} SealingQuiesces(env: Env, s: State, steps: seq<Step>)
    requires Roomy(env) && BackgroundRun(env, s, steps)
    ensures SealsWritten(steps) <= SealBudget(env, s) <= 2 * LiveSeals(s) + 1
    ensures |steps| <= StepBudget(env, s)
    decreases |steps|
  {
    hide Next, Roomy, LiveSeals;
    if steps != [] {
      if steps[0].WriteSeal? {
        SealStep(env, s, steps[0]);
      } else {
        QuietStep(env, s, steps[0]);
      }
      SealingQuiesces(env, Next(env, s, steps[0]), steps[1..]);
    }
  }

  /** Without that room it comes to rest if the budget is at most two: no live seal, or one and the
      current file not full. */
  lemma {:induction false} SmallBudgetQuiesces(env: Env, s: State, steps: seq<Step>)
    requires SealBudget(env, s) <= 2 && BackgroundRun(env, s, steps)
    ensures |steps| <= Total(s.sealers, Work) && SealsWritten(steps) <= LiveSeals(s) <= 1
    decreases |steps|
  {
    hide Next, LiveSeals;
    if steps != [] {
      if steps[0].WriteSeal? {
        RenamedIsLive(s, steps[0].k);
        SealStep(env, s, steps[0]);
      } else {
        QuietStep(env, s, steps[0]);
      }
      SmallBudgetQuiesces(env, Next(env, s, steps[0]), steps[1..]);
    }
  }

  /** And never otherwise: from a budget of three or more, every run of the sealers, with any stamps,
      leaves a sealer with a step still to make. */
  lemma {:induction false} CrampedNeverRests(env: Env, s: State, steps: seq<Step>)
    requires Started(s) && Cramped(env) && SealBudget(env, s) >= 3 && BackgroundRun(env, s, steps)
    ensures SealBudget(env, Run(env, s, steps)) >= 3
    ensures exists step :: Background(step) && Enabled(Run(env, s, steps), step)
    decreases |steps|
  {
    hide Next, Cramped, LiveSeals;
    if steps == [] {
      LiveMoves(s);
    } else {
      if steps[0].WriteSeal? {
        SealStep(env, s, steps[0]);
        LastLiveIsFresh(s, steps[0].k);
      } else {
        QuietStep(env, s, steps[0]);
      }
      CrampedNeverRests(env, Next(env, s, steps[0]), steps[1..]);
    }
  }

  lemma RenamedIsLive(s: State, k: nat)
    requires k < |s.sealers| && s.sealers[k].phase.Renamed?
    ensures LiveSeals(s) >= 1
  {
    TotalUpdate(s.sealers, k, s.sealers[k].(phase := Failed), IsRenamed);
  }

  /** If the one live seal is past its rename, no stamp is live. */
  lemma LastLiveIsFresh(s: State, k: nat)
    requires k < |s.sealers| && s.sealers[k].phase.Renamed?
    ensures LiveSeals(s) <= 1 ==> LiveStamps(s) == {}
  {
    TotalUpdate(s.sealers, k, s.sealers[k].(phase := Failed), IsRenamed);
  }

  lemma LiveMoves(s: State)
    requires LiveSeals(s) > 0
    ensures exists step :: Background(step) && Enabled(s, step)
  {
    if Total(s.sealers, IsRenamed) > 0 {
      var k := RenamedExists(s.sealers);
      assert Enabled(s, WriteSeal(k, Clock(0, 0, 0)));
    } else {
      var stamp :| stamp in LiveStamps(s);
      var k :| 0 <= k < |s.sealers| && InProcessing(s, k) && s.sealers[k].stamp == stamp;
      assert Enabled(s, HashFile(k)) || Enabled(s, RenameFile(k));
    }
  }

  lemma RenamedExists(sealers: seq<Sealer>) returns (k: nat)
    requires Total(sealers, IsRenamed) > 0
    ensures k < |sealers| && sealers[k].phase.Renamed?
  {
    var n := |sealers| - 1;
    if sealers[n].phase.Renamed? {
      k := n;
    } else {
      k := RenamedExists(sealers[..n]);
    }
  }

  // ---- At rest ----

  /** A sealer can move exactly while one has neither finished nor failed; and when none can, in a state
      of a run with stamps of its own, every epoch put away has its one seal record. */
  lemma AtRest(env: Env, s: State)
    ensures (exists step :: Background(step) && Enabled(s, step))
       <==> exists k :: 0 <= k < |s.sealers| && !s.sealers[k].phase.Done? && !s.sealers[k].phase.Failed?
    ensures Inv(env, s) && !(exists step :: Background(step) && Enabled(s, step)) ==>
              forall k :: 0 <= k < |s.sealers| ==>
                SealsOf(Flatten(Epochs(s)), s.sealers[k].stamp) == [env.hash(Content(env, Epochs(s)[k]))]
  {
    if k :| 0 <= k < |s.sealers| && !s.sealers[k].phase.Done? && !s.sealers[k].phase.Failed? {
      var phase := s.sealers[k].phase;
      var step := if phase.Spawned? then HashFile(k) else if phase.Hashed? then RenameFile(k)
                  else WriteSeal(k, Clock(0, 0, 0));
      assert Background(step) && Enabled(s, step);
    } else if Inv(env, s) {
      forall k | 0 <= k < |s.sealers|
        ensures SealsOf(Flatten(Epochs(s)), s.sealers[k].stamp) == [env.hash(Content(env, Epochs(s)[k]))]
      {
        assert s.sealers[k].phase.Done?;
        assert Linked(env, s, k);
      }
    }
  }

  /** With stamps of their own the live seals are those of the sealers that have still to finish. */
  lemma LiveArePending(s: State)
    requires Layout(s)
    ensures LiveSeals(s) == Total(s.sealers, IsPending)
  {
    LiveUpTo(s, |s.sealers|);
    assert s.sealers[..|s.sealers|] == s.sealers;
    assert LiveStampsUpTo(s, |s.sealers|) == LiveStamps(s);
  }

  function IsPending(phase: Phase): nat { if phase.Done? || phase.Failed? then 0 else 1 }

  function LiveStampsUpTo(s: State, n: nat): set<Time>
    requires n <= |s.sealers|
  {
    set k | 0 <= k < n && InProcessing(s, k) :: s.sealers[k].stamp
  }

  lemma {:induction false} LiveUpTo(s: State, n: nat)
    requires Layout(s) && n <= |s.sealers|
    ensures |LiveStampsUpTo(s, n)| + Total(s.sealers[..n], IsRenamed) == Total(s.sealers[..n], IsPending)
  {
    hide LiveStampsUpTo, Total;
    OneMoreStamp(s, n);
    if n > 0 {
      LiveUpTo(s, n - 1);
      var x := s.sealers[n - 1];
      assert s.sealers[..n] == s.sealers[..n - 1] + [x];
      TotalAppend(s.sealers[..n - 1], x, IsRenamed);
      TotalAppend(s.sealers[..n - 1], x, IsPending);
      assert FileOf(s, n - 1) in s.files;
    } else {
      assert s.sealers[..0] == [];
      TotalNothing();
    }
  }

  lemma TotalNothing()
    ensures Total([], IsRenamed) == Total([], IsPending) == 0
  {
  }

  lemma OneMoreStamp(s: State, n: nat)
    requires Layout(s) && n <= |s.sealers|
    ensures n == 0 ==> LiveStampsUpTo(s, n) == {}
    ensures n > 0 ==> |LiveStampsUpTo(s, n)| == |LiveStampsUpTo(s, n - 1)| + if InProcessing(s, n - 1) then 1 else 0
  {
    if n > 0 {
      var x := s.sealers[n - 1];
      assert x.stamp !in LiveStampsUpTo(s, n - 1);
      assert LiveStampsUpTo(s, n) == LiveStampsUpTo(s, n - 1) + if InProcessing(s, n - 1) then {x.stamp} else {};
    }
  }

  /** In every run, with any stamps, the current file begins with its start record. */
  lemma EveryRunStarted(env: Env, files: map<FileName, File>, time: Time, steps: seq<Step>)
    requires Usable(files)
    ensures Started(Run(env, Open(files, time), steps))
  {
    RunStarted(env, Open(files, time), steps);
  }

  lemma {:induction false} RunStarted(env: Env, s: State, steps: seq<Step>)
    requires Started(s)
    ensures Started(Run(env, s, steps))
    decreases |steps|
  {
    hide Next;
    if steps != [] {
      StepStarted(env, s, steps[0]);
      RunStarted(env, Next(env, s, steps[0]), steps[1..]);
    }
  }

  lemma StepStarted(env: Env, s: State, step: Step)
    requires Started(s)
    ensures Started(Next(env, s, step))
  {
  }
}
