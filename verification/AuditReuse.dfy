/** koot/governance/audit/log.py when rotations reuse stamps: which calls are then still in the
    directory, and which recorded hashes are those of the files they name. */
module AuditReuse {
  import opened Bytes
  import opened AuditProtocol
  import opened AuditArchives

  // ---- Everything ever written ----

  /** The records of every file put away and of the current one, in order. */
  ghost function History(s: State): File
    requires Current in s.files
  {
    Flatten(s.archived + [s.files[Current]])
  }

  function Appended(env: Env, s: State, r: Record, clock: Clock): seq<Record> {
    (if Oversize(env, s) then [EpochStart(clock.start, Pending)] else []) + [r]
  }

  /** The records a step writes. */
  function NewRecords(env: Env, s: State, step: Step): seq<Record>
    requires Current in s.files
  {
    match step
    case ClientLog(call, clock) => Appended(env, s, ClientEntry(clock.entry, call), clock)
    case ClientRotate(clock) => [EpochStart(clock.start, Pending)]
    case WriteSeal(k, clock) =>
      if !Enabled(s, step) then []
      else Appended(env, s, SealEntry(clock.entry, s.sealers[k].stamp, s.sealers[k].phase.digest), clock)
    case _ => []
  }

  lemma RotateHistory(s: State, clock: Clock)
    requires Current in s.files
    ensures History(Rotate(s, clock)) == History(s) + [EpochStart(clock.start, Pending)]
  {
    FlattenAppend(s.archived + [s.files[Current]], [EpochStart(clock.start, Pending)]);
  }

  lemma ExtendHistory(s: State, t: State, r: Record)
    requires Current in s.files && t.archived == s.archived
    requires t.files == s.files[Current := s.files[Current] + [r]]
    ensures History(t) == History(s) + [r]
  {
    var f := s.files[Current];
    FlattenAppend(s.archived, f);
    FlattenAppend(s.archived, f + [r]);
    assert Flatten(s.archived) + (f + [r]) == (Flatten(s.archived) + f) + [r];
  }

  lemma AppendHistory(env: Env, s: State, r: Record, clock: Clock)
    requires Current in s.files
    ensures Current in Append(env, s, r, clock).files
    ensures History(Append(env, s, r, clock)) == History(s) + Appended(env, s, r, clock)
  {
    hide History;
    var s1 := if Oversize(env, s) then Rotate(s, clock) else s;
    RotateHistory(s, clock);
    ExtendHistory(s1, Append(env, s, r, clock), r);
    if Oversize(env, s) {
      assert (History(s) + [EpochStart(clock.start, Pending)]) + [r] == History(s) + Appended(env, s, r, clock);
    } else {
      assert History(s) + [r] == History(s) + Appended(env, s, r, clock);
    }
  }

  lemma StepHistory(env: Env, s: State, step: Step)
    requires Current in s.files
    ensures Current in Next(env, s, step).files
    ensures History(Next(env, s, step)) == History(s) + NewRecords(env, s, step)
  {
    hide Appended, Append;
    match step
    case ClientLog(call, clock) =>
      AppendHistory(env, s, ClientEntry(clock.entry, call), clock);
    case ClientRotate(clock) =>
      RotateHistory(s, clock);
    case WriteSeal(k, clock) =>
      if Enabled(s, step) {
        AppendHistory(env, s, SealEntry(clock.entry, s.sealers[k].stamp, s.sealers[k].phase.digest), clock);
      } else {
        assert History(s) + [] == History(s);
      }
    case _ =>
      assert History(s) + [] == History(s);
  }

  // ---- Calls ----

  lemma {:induction false} CallsConcat(a: seq<Record>, b: seq<Record>)
    ensures Calls(a + b) == Calls(a) + Calls(b)
    decreases |b|
  {
    hide Calls, SealsOf;
    if b == [] {
      assert a + b == a;
      NoCalls();
    } else {
      var n := |b| - 1;
      CallsConcat(a, b[..n]);
      RecordAppend(a + b[..n], b[n], 0);
      RecordAppend(b[..n], b[n], 0);
      assert a + b == (a + b[..n]) + [b[n]] && b == b[..n] + [b[n]];
    }
  }

  lemma NoCalls()
    ensures Calls([]) == []
  {
  }

  lemma NewCalls(env: Env, s: State, step: Step)
    requires Current in s.files
    ensures Calls(NewRecords(env, s, step)) == if step.ClientLog? then [step.call] else []
  {
    match step
    case ClientLog(call, clock) =>
      AppendedCalls(env, s, ClientEntry(clock.entry, call), clock);
    case ClientRotate(clock) =>
      OneRecord(EpochStart(clock.start, Pending), 0);
    case WriteSeal(k, clock) =>
      if Enabled(s, step) {
        AppendedCalls(env, s, SealEntry(clock.entry, s.sealers[k].stamp, s.sealers[k].phase.digest), clock);
      }
    case _ =>
  }

  lemma OneRecord(r: Record, stamp: Time)
    ensures Calls([r]) == match r { case ClientEntry(_, call) => [call] case _ => [] }
    ensures SealsOf([r], stamp) == match r { case SealEntry(_, st, h) => if st == stamp then [h] else [] case _ => [] }
  {
    RecordAppend([], r, stamp);
    assert [] + [r] == [r];
  }

  lemma AppendedCalls(env: Env, s: State, r: Record, clock: Clock)
    ensures Calls(Appended(env, s, r, clock)) == match r { case ClientEntry(_, call) => [call] case _ => [] }
  {
    OneRecord(r, 0);
    OneRecord(EpochStart(clock.start, Pending), 0);
    CallsConcat(if Oversize(env, s) then [EpochStart(clock.start, Pending)] else [], [r]);
  }

  /** With any stamps, the files ever put away and the current one hold exactly the calls. */
  lemma {:induction false} HistoryConserved(env: Env, s: State, steps: seq<Step>)
    requires Current in s.files && Calls(History(s)) == s.calls
    ensures Current in Run(env, s, steps).files
    ensures Calls(History(Run(env, s, steps))) == Run(env, s, steps).calls == s.calls + CallsMade(steps)
    decreases |steps|
  {
    hide Next, NewRecords, History, Calls;
    if steps != [] {
      StepHistory(env, s, steps[0]);
      CallsConcat(History(s), NewRecords(env, s, steps[0]));
      NewCalls(env, s, steps[0]);
      NextCalls(env, s, steps[0]);
      HistoryConserved(env, Next(env, s, steps[0]), steps[1..]);
    }
  }

  lemma OpenConserved(files: map<FileName, File>, time: Time)
    ensures Current in Open(files, time).files
    ensures Calls(History(Open(files, time))) == Open(files, time).calls == Calls(Found(files))
    ensures History(Open(files, time)) == Open(files, time).files[Current]
  {
    OpenKeeps(files, time);
    FlattenAppend([], Open(files, time).files[Current]);
    assert [] + [Open(files, time).files[Current]] == [Open(files, time).files[Current]];
    assert Flatten<Record>([]) + Open(files, time).files[Current] == Open(files, time).files[Current];
  }

  /** The newest epoch of every stamp is under its sealed name. */
  ghost predicate NewestKept(s: State)
    requires |s.archived| == |s.sealers|
  {
    forall k :: 0 <= k < |s.sealers| && Newest(s, k) ==>
      Sealed(s.sealers[k].stamp) in s.files && s.files[Sealed(s.sealers[k].stamp)] == s.archived[k]
  }

  /** The archives in the directory of the stamps of the first n rotations, in the order of their epochs. */
  ghost function RunFiles(s: State, n: nat): seq<File>
    requires n <= |s.sealers| == |s.archived| && NewestKept(s)
  {
    if n == 0 then []
    else RunFiles(s, n - 1) + if Newest(s, n - 1) then [s.files[Sealed(s.sealers[n - 1].stamp)]] else []
  }

  /** No epoch whose stamp was used again holds a call. */
  ghost predicate SupersededSilent(s: State, n: nat)
    requires n <= |s.sealers| == |s.archived|
  {
    forall k :: 0 <= k < n && !Newest(s, k) ==> Calls(s.archived[k]) == []
  }

  lemma {:induction false} CallsUpTo(s: State, n: nat)
    requires n <= |s.sealers| == |s.archived| && NewestKept(s)
    ensures var found, all := Calls(Flatten(RunFiles(s, n))), Calls(Flatten(s.archived[..n]));
            && |found| <= |all|
            && (SupersededSilent(s, n) ==> found == all)
            && (|found| == |all| ==> SupersededSilent(s, n))
  {
    hide Newest, Flatten, Calls;
    if n == 0 {
      assert s.archived[..0] == [];
    } else {
      var f := s.archived[n - 1];
      CallsUpTo(s, n - 1);
      assert s.archived[..n] == s.archived[..n - 1] + [f];
      FlattenAppend(s.archived[..n - 1], f);
      CallsConcat(Flatten(s.archived[..n - 1]), f);
      if Newest(s, n - 1) {
        FlattenAppend(RunFiles(s, n - 1), f);
        CallsConcat(Flatten(RunFiles(s, n - 1)), f);
      } else {
        assert RunFiles(s, n) == RunFiles(s, n - 1);
      }
    }
  }

  /** After any run whose renames have all been tried, the archives of the run and the current file hold
      exactly the calls if and only if no epoch whose stamp was used again holds one. */
  lemma CallsKeptExactly(env: Env, files: map<FileName, File>, time: Time, steps: seq<Step>)
    requires RenamesDone(Run(env, Open(files, time), steps))
    ensures var s := Run(env, Open(files, time), steps);
            && |s.archived| == |s.sealers| && Current in s.files && NewestKept(s)
            && (Calls(Flatten(RunFiles(s, |s.sealers|) + [s.files[Current]])) == s.calls
                <==> SupersededSilent(s, |s.sealers|))
  {
    hide Run, Open, Newest, Flatten, Calls, SupersededSilent, RunFiles;
    var s := Run(env, Open(files, time), steps);
    DirectoryExact(env, files, time, steps);
    OpenConserved(files, time);
    HistoryConserved(env, Open(files, time), steps);
    CallsUpTo(s, |s.sealers|);
    assert s.archived[..|s.sealers|] == s.archived;
    var f := s.files[Current];
    FlattenAppend(s.archived, f);
    FlattenAppend(RunFiles(s, |s.sealers|), f);
    CallsConcat(Flatten(s.archived), f);
    CallsConcat(Flatten(RunFiles(s, |s.sealers|)), f);
  }

  // ---- Recorded hashes ----

  ghost predicate HasDigest(phase: Phase) { phase.Hashed? || phase.Renamed? || phase.Done? }

  /** The digest is that of an epoch of the sealer's stamp, its own or a later one. */
  ghost predicate HashesEpoch(env: Env, s: State, k: nat, digest: Digest)
    requires k < |s.sealers| == |s.archived|
  {
    exists j :: k <= j < |s.sealers| && s.sealers[j].stamp == s.sealers[k].stamp && IsHashOf(env, s.archived[j], digest)
  }

  ghost predicate IsHashOf(env: Env, f: File, digest: Digest) { digest == env.hash(Content(env, f)) }

  ghost predicate DigestsSound(env: Env, s: State) {
    && |s.archived| == |s.sealers|
    && forall k :: 0 <= k < |s.sealers| && HasDigest(s.sealers[k].phase) ==>
         HashesEpoch(env, s, k, s.sealers[k].phase.digest)
  }

  /** Epochs put away, stamps and digests stay. */
  ghost predicate Extends(s: State, t: State) {
    && |s.archived| == |s.sealers| <= |t.sealers| == |t.archived|
    && forall k :: 0 <= k < |s.sealers| ==>
         && t.archived[k] == s.archived[k] && t.sealers[k].stamp == s.sealers[k].stamp
         && (s.sealers[k].phase.Failed? ==> t.sealers[k].phase.Failed?)
         && (HasDigest(s.sealers[k].phase) ==> SameDigest(s.sealers[k].phase, t.sealers[k].phase))
  }

  ghost predicate SameDigest(a: Phase, b: Phase)
    requires HasDigest(a)
  {
    b.Failed? || (HasDigest(b) && b.digest == a.digest)
  }

  lemma StepExtends(env: Env, s: State, step: Step)
    requires Current in s.files && |s.archived| == |s.sealers|
    ensures Extends(s, Next(env, s, step))
  {
  }

  lemma ExtendsTransitive(s: State, t: State, u: State)
    requires Extends(s, t) && Extends(t, u)
    ensures Extends(s, u)
  {
    forall k | 0 <= k < |s.sealers|
      ensures u.archived[k] == s.archived[k] && u.sealers[k].stamp == s.sealers[k].stamp
      ensures s.sealers[k].phase.Failed? ==> u.sealers[k].phase.Failed?
      ensures HasDigest(s.sealers[k].phase) ==> SameDigest(s.sealers[k].phase, u.sealers[k].phase)
    {
      assert t.archived[k] == s.archived[k];
      assert u.archived[k] == t.archived[k];
    }
  }

  lemma {:induction false} RunExtends(env: Env, was: map<FileName, File>, s: State, steps: seq<Step>)
    requires Directory(was, s)
    ensures Extends(s, Run(env, s, steps))
    decreases |steps|
  {
    if steps != [] {
      var t := Next(env, s, steps[0]);
      StepExtends(env, s, steps[0]);
      NextDirectory(env, was, s, steps[0]);
      hide Next, Directory, Extends;
      RunExtends(env, was, t, steps[1..]);
      ExtendsTransitive(s, t, Run(env, t, steps[1..]));
    }
  }

  /** What a sealer hashes is the newest epoch of its stamp. */
  lemma HashesNewest(env: Env, was: map<FileName, File>, s: State, k: nat, n: nat)
    requires Directory(was, s) && Enabled(s, HashFile(k)) && Processing(s.sealers[k].stamp) in s.files
    requires n < |s.sealers| && Newest(s, n) && s.sealers[n].stamp == s.sealers[k].stamp
    ensures k <= n
    ensures var t := Next(env, s, HashFile(k));
            t.sealers[k].phase == Hashed(env.hash(Content(env, s.archived[n])))
  {
    assert Placed(s, n);
  }

  lemma StepDigests(env: Env, was: map<FileName, File>, s: State, step: Step)
    requires Directory(was, s) && DigestsSound(env, s)
    ensures DigestsSound(env, Next(env, s, step))
  {
    var t := Next(env, s, step);
    StepExtends(env, s, step);
    forall k | 0 <= k < |t.sealers| && HasDigest(t.sealers[k].phase)
      ensures HashesEpoch(env, t, k, t.sealers[k].phase.digest)
    {
      assert k < |s.sealers|;
      if step == HashFile(k) && Enabled(s, step) {
        var n := NewestOf(s, k);
        HashesNewest(env, was, s, k, n);
        assert t.archived[n] == s.archived[n];
        assert IsHashOf(env, t.archived[n], t.sealers[k].phase.digest);
      } else {
        assert HasDigest(s.sealers[k].phase) && t.sealers[k].phase.digest == s.sealers[k].phase.digest;
        var j :| k <= j < |s.sealers| && s.sealers[j].stamp == s.sealers[k].stamp
                 && IsHashOf(env, s.archived[j], s.sealers[k].phase.digest);
        assert t.archived[j] == s.archived[j] && t.sealers[j].stamp == s.sealers[j].stamp;
      }
    }
  }

  lemma {:induction false} RunDigests(env: Env, was: map<FileName, File>, s: State, steps: seq<Step>)
    requires Directory(was, s) && DigestsSound(env, s)
    ensures DigestsSound(env, Run(env, s, steps))
    decreases |steps|
  {
    hide Next, Directory, DigestsSound;
    if steps != [] {
      StepDigests(env, was, s, steps[0]);
      NextDirectory(env, was, s, steps[0]);
      RunDigests(env, was, Next(env, s, steps[0]), steps[1..]);
    }
  }

  /** A sealer of the stamp has recorded the hash. */
  ghost predicate Recorded(s: State, stamp: Time, h: Digest) {
    exists k :: 0 <= k < |s.sealers| && s.sealers[k].stamp == stamp && s.sealers[k].phase == Done(h)
  }

  /** The seal records are those found at the start and those of the sealers that are done. */
  ghost predicate RecordsExact(found: seq<Record>, s: State)
    requires Current in s.files
  {
    forall stamp: Time, h: Digest ::
      h in SealsOf(History(s), stamp) <==> h in SealsOf(found, stamp) || Recorded(s, stamp, h)
  }

  lemma AppendedSeals(env: Env, s: State, r: Record, clock: Clock, stamp: Time)
    ensures SealsOf(Appended(env, s, r, clock), stamp)
         == match r { case SealEntry(_, st, h) => if st == stamp then [h] else [] case _ => [] }
  {
    OneRecord(r, stamp);
    OneRecord(EpochStart(clock.start, Pending), stamp);
    SealsConcat(if Oversize(env, s) then [EpochStart(clock.start, Pending)] else [], [r], stamp);
  }

  lemma NewSeals(env: Env, s: State, step: Step, stamp: Time)
    requires Current in s.files
    ensures SealsOf(NewRecords(env, s, step), stamp)
         == if step.WriteSeal? && Enabled(s, step) && s.sealers[step.k].stamp == stamp
            then [s.sealers[step.k].phase.digest] else []
  {
    match step
    case ClientLog(call, clock) =>
      AppendedSeals(env, s, ClientEntry(clock.entry, call), clock, stamp);
    case ClientRotate(clock) =>
      OneRecord(EpochStart(clock.start, Pending), stamp);
    case WriteSeal(k, clock) =>
      if Enabled(s, step) {
        var r := SealEntry(clock.entry, s.sealers[k].stamp, s.sealers[k].phase.digest);
        AppendedSeals(env, s, r, clock, stamp);
      }
    case _ =>
  }

  lemma StepRecorded(env: Env, s: State, step: Step, stamp: Time, h: Digest)
    ensures Recorded(Next(env, s, step), stamp, h) <==>
              || Recorded(s, stamp, h)
              || (step.WriteSeal? && Enabled(s, step)
                  && s.sealers[step.k].stamp == stamp && s.sealers[step.k].phase.digest == h)
  {
    var t := Next(env, s, step);
    if Recorded(s, stamp, h) {
      var k :| 0 <= k < |s.sealers| && s.sealers[k].stamp == stamp && s.sealers[k].phase == Done(h);
      assert t.sealers[k] == s.sealers[k];
    }
    if step.WriteSeal? && Enabled(s, step) {
      assert t.sealers[step.k] == Sealer(s.sealers[step.k].stamp, Done(s.sealers[step.k].phase.digest));
    }
    if Recorded(t, stamp, h) {
      var k :| 0 <= k < |t.sealers| && t.sealers[k].stamp == stamp && t.sealers[k].phase == Done(h);
      assert k < |s.sealers| && s.sealers[k].stamp == stamp;
    }
  }

  lemma {:induction false} RunRecords(env: Env, found: seq<Record>, s: State, steps: seq<Step>)
    requires Current in s.files && RecordsExact(found, s)
    ensures Current in Run(env, s, steps).files && RecordsExact(found, Run(env, s, steps))
    decreases |steps|
  {
    hide Next, NewRecords, History, SealsOf, Recorded;
    if steps != [] {
      var t := Next(env, s, steps[0]);
      StepHistory(env, s, steps[0]);
      forall stamp: Time, h: Digest
        ensures h in SealsOf(History(t), stamp) <==> h in SealsOf(found, stamp) || Recorded(t, stamp, h)
      {
        SealsConcat(History(s), NewRecords(env, s, steps[0]), stamp);
        NewSeals(env, s, steps[0], stamp);
        StepRecorded(env, s, steps[0], stamp, h);
      }
      RunRecords(env, found, t, steps[1..]);
    }
  }

  lemma OpenRecords(files: map<FileName, File>, time: Time)
    ensures Current in Open(files, time).files && RecordsExact(Found(files), Open(files, time))
  {
    OpenKeeps(files, time);
    OpenConserved(files, time);
    forall stamp: Time ensures SealsOf(Open(files, time).files[Current], stamp) == SealsOf(Found(files), stamp) {
      NoSeals(time, stamp);
    }
  }

  /** In every run, with any stamps, the hashes recorded for a stamp, beyond those found at the start, are
      those of the sealers that are done, and each is the hash of an epoch of that stamp: of the sealer's
      own or a later one. */
  lemma EveryHashOfStamp(env: Env, files: map<FileName, File>, time: Time, steps: seq<Step>)
    ensures var s := Run(env, Open(files, time), steps);
            && DigestsSound(env, s) && Current in s.files
            && RecordsExact(Found(files), s)
  {
    OpenDirectory(files, time);
    OpenConserved(files, time);
    RunDigests(env, files, Open(files, time), steps);
    OpenRecords(files, time);
    RunRecords(env, Found(files), Open(files, time), steps);
  }

  /** Take any run and a sealer's hashing in it, n being then the newest epoch of its stamp and m the newest
      when all renames have been tried. Unless the sealer fails, what it records is the hash of epoch n; that
      is the hash of the file under the sealed name exactly when epochs n and m hash alike; and n is m
      exactly when no later rotation takes the stamp. */
  lemma RecordedHashExact(env: Env, files: map<FileName, File>, time: Time, before: seq<Step>, k: nat,
                          after: seq<Step>, n: nat, m: nat)
    requires var s := Run(env, Open(files, time), before);
             && Enabled(s, HashFile(k)) && Processing(s.sealers[k].stamp) in s.files
             && n < |s.sealers| && Newest(s, n) && s.sealers[n].stamp == s.sealers[k].stamp
             && var t := Run(env, Next(env, s, HashFile(k)), after);
                && RenamesDone(t) && k < |t.sealers| && !t.sealers[k].phase.Failed?
                && m < |t.sealers| && Newest(t, m) && t.sealers[m].stamp == s.sealers[k].stamp
    ensures var s := Run(env, Open(files, time), before);
            var t := Run(env, Next(env, s, HashFile(k)), after);
            var name := Sealed(s.sealers[k].stamp);
            && k <= n <= m < |t.archived| && name in t.files
            && IsHashOf(env, t.archived[n], t.sealers[k].phase.digest)
            && (IsHashOf(env, t.files[name], t.sealers[k].phase.digest)
                <==> env.hash(Content(env, t.archived[n])) == env.hash(Content(env, t.archived[m])))
            && (n == m <==> forall j :: |s.sealers| <= j < |t.sealers| ==> t.sealers[j].stamp != s.sealers[k].stamp)
  {
    var s := Run(env, Open(files, time), before);
    var s1 := Next(env, s, HashFile(k));
    var t := Run(env, s1, after);
    OpenDirectory(files, time);
    RunDirectory(env, files, Open(files, time), before);
    NextDirectory(env, files, s, HashFile(k));
    RunDirectory(env, files, s1, after);
    HashesNewest(env, files, s, k, n);
    RunExtends(env, files, s1, after);
    assert |s1.sealers| == |s.sealers| && s1.archived == s.archived;
    assert t.sealers[k].stamp == s1.sealers[k].stamp && t.archived[n] == s1.archived[n];
    assert forall j :: 0 <= j < |s.sealers| ==> t.sealers[j].stamp == s1.sealers[j].stamp == s.sealers[j].stamp;
    assert Placed(t, m);
    if n == m {
      assert Newest(t, n);
    }
  }

  /** So two rotations in one second can leave an archive under a hash that is not its own: the first
      sealer hashes its epoch, the second rotation replaces the file, and the rename then moves that one. */
  lemma SameSecondWrongHash(env: Env, call: Call, c: Clock, d: Clock)
    requires c.stamp == d.stamp && env.maxSize > Size(env, [EpochStart(c.start, Genesis)])
    ensures var s := Run(env, Open(map[], c.start), [ClientLog(call, c), ClientRotate(c)]
                       + [HashFile(0), ClientRotate(d), RenameFile(0)]);
            && |s.sealers| == 2 && s.sealers[0] == Sealer(c.stamp, Renamed(env.hash(Content(env,
                 [EpochStart(c.start, Genesis), ClientEntry(c.entry, call)]))))
            && Sealed(c.stamp) in s.files && s.files[Sealed(c.stamp)] == [EpochStart(c.start, Pending)]
  {
    var rest := [HashFile(0), ClientRotate(d), RenameFile(0)];
    var s2 := LoggedAndRotated(env, call, c);
    LoggedThenRotated(env, call, c, rest);
    var s3 := Next(env, s2, HashFile(0));
    var s4 := Next(env, s3, ClientRotate(d));
    assert rest == [HashFile(0)] + [ClientRotate(d), RenameFile(0)];
    RunFirst(env, s2, HashFile(0), [ClientRotate(d), RenameFile(0)]);
    assert [ClientRotate(d), RenameFile(0)] == [ClientRotate(d)] + [RenameFile(0)];
    RunFirst(env, s3, ClientRotate(d), [RenameFile(0)]);
    RunFirst(env, s4, RenameFile(0), []);
    assert [RenameFile(0)] + [] == [RenameFile(0)];
    assert s2.files[Processing(c.stamp)] == [EpochStart(c.start, Genesis), ClientEntry(c.entry, call)];
  }
}
