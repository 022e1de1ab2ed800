/** koot/governance/audit/log.py with any stamps at all: archives are named by the second of their
    rotation, and what the directory holds is then determined by the last epoch of each stamp. */
module AuditArchives {
  import opened AuditProtocol

  predicate Bears(s: State, stamp: Time) {
    exists k :: 0 <= k < |s.sealers| && s.sealers[k].stamp == stamp
  }

  /** No later epoch has the stamp. */
  predicate Newest(s: State, k: nat)
    requires k < |s.sealers|
  {
    forall j :: k < j < |s.sealers| ==> s.sealers[j].stamp != s.sealers[k].stamp
  }

  /** The epoch's file is under its processing name, with its sealer still before the rename, or under
      its sealed name. */
  ghost predicate Placed(s: State, k: nat)
    requires k < |s.sealers| && |s.archived| == |s.sealers|
  {
    var x := s.sealers[k];
    if Processing(x.stamp) in s.files then
      s.files[Processing(x.stamp)] == s.archived[k] && (x.phase.Spawned? || x.phase.Hashed?)
    else Sealed(x.stamp) in s.files && s.files[Sealed(x.stamp)] == s.archived[k]
  }

  ghost predicate SameFile(a: map<FileName, File>, b: map<FileName, File>, f: FileName) {
    (f in a <==> f in b) && (f in b ==> a[f] == b[f])
  }

  /** What holds of the directory whatever the stamps: the newest epoch of each stamp is in place, and
      files of other stamps are as they were at the start. */
  ghost predicate Directory(was: map<FileName, File>, s: State) {
    && Current in s.files && |s.archived| == |s.sealers|
    && (forall k :: 0 <= k < |s.sealers| && Newest(s, k) ==> Placed(s, k))
    && (forall f: FileName :: f != Current && !Bears(s, f.stamp) ==> SameFile(s.files, was, f))
  }

  lemma OpenDirectory(files: map<FileName, File>, time: Time)
    ensures Directory(files, Open(files, time))
  {
  }

  lemma RotateDirectory(was: map<FileName, File>, s: State, clock: Clock)
    requires Directory(was, s)
    ensures Directory(was, Rotate(s, clock))
  {
    var t, n := Rotate(s, clock), |s.sealers|;
    forall k | 0 <= k <= n && Newest(t, k) ensures Placed(t, k) {
      if k < n {
        assert t.sealers[n].stamp != t.sealers[k].stamp;
        forall j | k < j < n ensures s.sealers[j].stamp != s.sealers[k].stamp {
          assert t.sealers[j].stamp != t.sealers[k].stamp;
        }
        assert Newest(s, k);
      }
    }
    forall f: FileName | f != Current && !Bears(t, f.stamp) ensures SameFile(t.files, was, f) {
      assert t.sealers[n].stamp != f.stamp;
      forall k | 0 <= k < n ensures s.sealers[k].stamp != f.stamp {
        assert t.sealers[k] == s.sealers[k];
      }
    }
  }

  /** A record appended to the current file and a sealer's phase changed, but not by the rename. */
  lemma QuietDirectory(was: map<FileName, File>, s: State, t: State)
    requires Directory(was, s) && Current in t.files
    requires forall f: FileName :: f != Current ==> SameFile(t.files, s.files, f)
    requires t.archived == s.archived && |t.sealers| == |s.sealers|
    requires forall k :: 0 <= k < |s.sealers| ==>
               && t.sealers[k].stamp == s.sealers[k].stamp
               && (t.sealers[k].phase == s.sealers[k].phase || t.sealers[k].phase.Hashed?
                   || s.sealers[k].phase.Renamed? || Processing(s.sealers[k].stamp) !in s.files)
    ensures Directory(was, t)
  {
    forall k | 0 <= k < |s.sealers| && Newest(t, k) ensures Placed(t, k) {
      forall j | k < j < |s.sealers| ensures s.sealers[j].stamp != s.sealers[k].stamp {
        assert t.sealers[j].stamp != t.sealers[k].stamp;
      }
      assert Newest(s, k);
      assert Placed(s, k);
      assert SameFile(t.files, s.files, Processing(s.sealers[k].stamp));
      assert SameFile(t.files, s.files, Sealed(s.sealers[k].stamp));
    }
    forall f: FileName | f != Current && !Bears(t, f.stamp) ensures SameFile(t.files, was, f) {
      forall k | 0 <= k < |s.sealers| ensures s.sealers[k].stamp != f.stamp {
        assert t.sealers[k].stamp == s.sealers[k].stamp;
      }
      assert SameFile(t.files, s.files, f) && SameFile(s.files, was, f);
    }
  }

  lemma RenameDirectory(env: Env, was: map<FileName, File>, s: State, k: nat)
    requires Directory(was, s)
    ensures Directory(was, Next(env, s, RenameFile(k)))
  {
    var t := Next(env, s, RenameFile(k));
    if Enabled(s, RenameFile(k)) {
      forall j | 0 <= j < |s.sealers| && Newest(t, j) ensures Placed(t, j) {
        forall i | j < i < |s.sealers| ensures s.sealers[i].stamp != s.sealers[j].stamp {
          assert t.sealers[i].stamp != t.sealers[j].stamp;
        }
        assert Newest(s, j);
        assert Placed(s, j);
      }
      forall f: FileName | f != Current && !Bears(t, f.stamp) ensures SameFile(t.files, was, f) {
        assert t.sealers[k].stamp != f.stamp;
        forall j | 0 <= j < |s.sealers| ensures s.sealers[j].stamp != f.stamp {
          assert t.sealers[j].stamp == s.sealers[j].stamp;
        }
      }
    }
  }

  /** Every step keeps that, admissible or not. */
  lemma NextDirectory(env: Env, was: map<FileName, File>, s: State, step: Step)
    requires Directory(was, s)
    ensures Directory(was, Next(env, s, step))
  {
    var t := Next(env, s, step);
    match step
    case ClientLog(call, clock) =>
      AppendDirectory(env, was, s, ClientEntry(clock.entry, call), clock);
      QuietDirectory(was, Append(env, s, ClientEntry(clock.entry, call), clock), t);
    case ClientRotate(clock) =>
      RotateDirectory(was, s, clock);
    case HashFile(k) =>
      QuietDirectory(was, s, t);
    case RenameFile(k) =>
      RenameDirectory(env, was, s, k);
    case WriteSeal(k, clock) =>
      if Enabled(s, step) {
        var r := SealEntry(clock.entry, s.sealers[k].stamp, s.sealers[k].phase.digest);
        AppendDirectory(env, was, s, r, clock);
        QuietDirectory(was, Append(env, s, r, clock), t);
      }
  }

  lemma AppendDirectory(env: Env, was: map<FileName, File>, s: State, r: Record, clock: Clock)
    requires Directory(was, s)
    ensures Directory(was, Append(env, s, r, clock))
  {
    var s1 := if Oversize(env, s) then Rotate(s, clock) else s;
    RotateDirectory(was, s, clock);
    QuietDirectory(was, s1, Append(env, s, r, clock));
  }

  lemma {:induction false} RunDirectory(env: Env, was: map<FileName, File>, s: State, steps: seq<Step>)
    requires Directory(was, s)
    ensures Directory(was, Run(env, s, steps))
    decreases |steps|
  {
    if steps != [] {
      NextDirectory(env, was, s, steps[0]);
      RunDirectory(env, was, Next(env, s, steps[0]), steps[1..]);
    }
  }

  // ---- Which archives are kept ----

  /** Every sealer has tried its rename. */
  predicate RenamesDone(s: State) {
    forall k :: 0 <= k < |s.sealers| ==> !s.sealers[k].phase.Spawned? && !s.sealers[k].phase.Hashed?
  }

  /** The epoch's file is in the directory under its sealed name. */
  ghost predicate Kept(s: State, k: nat)
    requires k < |s.sealers| && |s.archived| == |s.sealers|
  {
    Sealed(s.sealers[k].stamp) in s.files && s.files[Sealed(s.sealers[k].stamp)] == s.archived[k]
  }

  /** Epochs with one stamp have one content. */
  ghost predicate StampsTellApart(s: State)
    requires |s.archived| == |s.sealers|
  {
    forall j, k :: 0 <= j < k < |s.sealers| && s.sealers[j].stamp == s.sealers[k].stamp ==>
      s.archived[j] == s.archived[k]
  }

  lemma {:induction false} NewestOf(s: State, k: nat) returns (n: nat)
    requires k < |s.sealers|
    ensures k <= n < |s.sealers| && Newest(s, n) && s.sealers[n].stamp == s.sealers[k].stamp
    decreases |s.sealers| - k
  {
    if Newest(s, k) {
      n := k;
    } else {
      var j :| k < j < |s.sealers| && s.sealers[j].stamp == s.sealers[k].stamp;
      n := NewestOf(s, j);
    }
  }

  /** The whole directory after any run, with any stamps, once every sealer has tried its rename:
      each stamp has one archive, the file of its newest epoch; no file with a stamp of the run is in
      processing; and files with other stamps are as they were. */
  lemma DirectoryExact(env: Env, files: map<FileName, File>, time: Time, steps: seq<Step>)
    requires RenamesDone(Run(env, Open(files, time), steps))
    ensures var s := Run(env, Open(files, time), steps);
            && |s.archived| == |s.sealers| && Current in s.files
            && (forall k :: 0 <= k < |s.sealers| ==> Processing(s.sealers[k].stamp) !in s.files)
            && (forall k :: 0 <= k < |s.sealers| && Newest(s, k) ==> Kept(s, k))
            && (forall f: FileName :: f != Current && !Bears(s, f.stamp) ==> SameFile(s.files, files, f))
  {
    var s := Run(env, Open(files, time), steps);
    OpenDirectory(files, time);
    RunDirectory(env, files, Open(files, time), steps);
    forall k | 0 <= k < |s.sealers| ensures Processing(s.sealers[k].stamp) !in s.files {
      var n := NewestOf(s, k);
      assert Placed(s, n);
    }
    forall k | 0 <= k < |s.sealers| && Newest(s, k) ensures Kept(s, k) {
      assert Placed(s, k);
    }
  }

  /** So an epoch is kept exactly when the newest epoch of its stamp has the same content, and every
      epoch is kept exactly when epochs with equal stamps have equal contents. */
  lemma KeptExactly(env: Env, files: map<FileName, File>, time: Time, steps: seq<Step>)
    requires RenamesDone(Run(env, Open(files, time), steps))
    ensures var s := Run(env, Open(files, time), steps);
            && |s.archived| == |s.sealers|
            && (forall j, k :: 0 <= j <= k < |s.sealers| && s.sealers[j].stamp == s.sealers[k].stamp && Newest(s, k) ==>
                  (Kept(s, j) <==> s.archived[j] == s.archived[k]))
            && ((forall k :: 0 <= k < |s.sealers| ==> Kept(s, k)) <==> StampsTellApart(s))
  {
    hide Run, Open;
    var s := Run(env, Open(files, time), steps);
    DirectoryExact(env, files, time, steps);
    if StampsTellApart(s) {
      forall k | 0 <= k < |s.sealers| ensures Kept(s, k) {
        var n := NewestOf(s, k);
        assert Kept(s, n);
      }
    }
    if forall k :: 0 <= k < |s.sealers| ==> Kept(s, k) {
      forall j, k | 0 <= j < k < |s.sealers| && s.sealers[j].stamp == s.sealers[k].stamp
        ensures s.archived[j] == s.archived[k]
      {
        assert Kept(s, j) && Kept(s, k);
      }
    }
  }

  /** A file that was there before the run and has a stamp of the run does not outlive it either: in
      processing it is gone, and sealed it is now the newest epoch's. */
  lemma EarlierArchivesKeptExactly(env: Env, files: map<FileName, File>, time: Time, steps: seq<Step>)
    requires RenamesDone(Run(env, Open(files, time), steps))
    ensures var s := Run(env, Open(files, time), steps);
            && |s.archived| == |s.sealers|
            && ((forall f :: f in files && f != Current ==> f in s.files && s.files[f] == files[f]) <==>
                forall k :: 0 <= k < |s.sealers| && Newest(s, k) ==>
                  && Processing(s.sealers[k].stamp) !in files
                  && (Sealed(s.sealers[k].stamp) in files ==> files[Sealed(s.sealers[k].stamp)] == s.archived[k]))
  {
    hide Run, Open;
    var s := Run(env, Open(files, time), steps);
    DirectoryExact(env, files, time, steps);
    if forall f :: f in files && f != Current ==> f in s.files && s.files[f] == files[f] {
      forall k | 0 <= k < |s.sealers| && Newest(s, k)
        ensures Processing(s.sealers[k].stamp) !in files
        ensures Sealed(s.sealers[k].stamp) in files ==> files[Sealed(s.sealers[k].stamp)] == s.archived[k]
      {
        assert Kept(s, k);
      }
    }
    if forall k :: 0 <= k < |s.sealers| && Newest(s, k) ==>
         && Processing(s.sealers[k].stamp) !in files
         && (Sealed(s.sealers[k].stamp) in files ==> files[Sealed(s.sealers[k].stamp)] == s.archived[k])
    {
      forall f | f in files && f != Current ensures f in s.files && s.files[f] == files[f] {
        if Bears(s, f.stamp) {
          var k :| 0 <= k < |s.sealers| && s.sealers[k].stamp == f.stamp;
          var n := NewestOf(s, k);
          assert Kept(s, n);
        } else {
          assert SameFile(s.files, files, f);
        }
      }
    }
  }

  // ---- Which runs are admissible ----

  /** The rotations have stamps of their own, that no file had before. */
  ghost predicate FreshStamps(was: map<FileName, File>, s: State) {
    && (forall k :: 0 <= k < |s.sealers| ==> Unused(was, s.sealers[k].stamp))
    && (forall j, k :: 0 <= j < k < |s.sealers| ==> s.sealers[j].stamp != s.sealers[k].stamp)
  }

  lemma UnusedExactly(was: map<FileName, File>, s: State, stamp: Time)
    requires Directory(was, s)
    ensures Unused(s.files, stamp) <==> !Bears(s, stamp) && Unused(was, stamp)
  {
    if Bears(s, stamp) {
      var k :| 0 <= k < |s.sealers| && s.sealers[k].stamp == stamp;
      var n := NewestOf(s, k);
      assert Placed(s, n);
    } else {
      assert SameFile(s.files, was, Processing(stamp)) && SameFile(s.files, was, Sealed(stamp));
    }
  }

  lemma StepFresh(env: Env, was: map<FileName, File>, s: State, step: Step)
    requires Directory(was, s) && FreshStamps(was, s)
    ensures Admissible(env, s, step) <==> FreshStamps(was, Next(env, s, step))
  {
    var t, n := Next(env, s, step), |s.sealers|;
    if Rotates(env, s, step) {
      UnusedExactly(was, s, step.clock.stamp);
      assert |t.sealers| == n + 1 && t.sealers[n].stamp == step.clock.stamp;
    } else {
      assert |t.sealers| == n;
    }
    assert forall k :: 0 <= k < n ==> t.sealers[k].stamp == s.sealers[k].stamp;
  }

  lemma {:induction false} StaysStale(env: Env, was: map<FileName, File>, s: State, steps: seq<Step>)
    requires !FreshStamps(was, s)
    ensures !FreshStamps(was, Run(env, s, steps))
    decreases |steps|
  {
    if steps != [] {
      var t := Next(env, s, steps[0]);
      assert |t.sealers| >= |s.sealers| &&
        forall k :: 0 <= k < |s.sealers| ==> t.sealers[k].stamp == s.sealers[k].stamp;
      StaysStale(env, was, t, steps[1..]);
    }
  }

  lemma {:induction false} RunFresh(env: Env, was: map<FileName, File>, s: State, steps: seq<Step>)
    requires Directory(was, s) && FreshStamps(was, s)
    ensures AdmissibleRun(env, s, steps) <==> FreshStamps(was, Run(env, s, steps))
    decreases |steps|
  {
    if steps != [] {
      var t := Next(env, s, steps[0]);
      StepFresh(env, was, s, steps[0]);
      NextDirectory(env, was, s, steps[0]);
      if FreshStamps(was, t) {
        RunFresh(env, was, t, steps[1..]);
      } else {
        StaysStale(env, was, t, steps[1..]);
      }
    }
  }

  lemma EpochsAreArchived(was: map<FileName, File>, s: State)
    requires Directory(was, s) && Layout(s)
    ensures Epochs(s)[..|s.sealers|] == s.archived
  {
    forall k | 0 <= k < |s.sealers| ensures Epochs(s)[k] == s.archived[k] {
      assert FileOf(s, k) in s.files;
      assert Newest(s, k);
      assert Placed(s, k);
    }
  }

  /** The runs of AuditProtocol.EveryRun are exactly those whose rotations have different stamps, that no
      file had at the start; and their epochs, but for the current one, are the files put away. */
  lemma AdmissibleExactly(env: Env, files: map<FileName, File>, time: Time, steps: seq<Step>)
    requires Usable(files)
    ensures var s := Run(env, Open(files, time), steps);
            && (AdmissibleRun(env, Open(files, time), steps) <==> FreshStamps(files, s))
            && (FreshStamps(files, s) ==> Layout(s) && Epochs(s)[..|s.sealers|] == s.archived)
  {
    var s0 := Open(files, time);
    OpenDirectory(files, time);
    RunFresh(env, files, s0, steps);
    RunDirectory(env, files, s0, steps);
    if AdmissibleRun(env, s0, steps) {
      OpenInv(env, files, time);
      RunInv(env, s0, steps);
      EpochsAreArchived(files, Run(env, s0, steps));
    }
  }

  // ---- A stamp used twice ----

  lemma RunFirst(env: Env, s: State, step: Step, rest: seq<Step>)
    ensures Run(env, s, [step] + rest) == Run(env, Next(env, s, step), rest)
  {
    assert ([step] + rest)[1..] == rest;
  }

  lemma NoCallAtStart(time: Time)
    ensures Calls([EpochStart(time, Genesis)]) == Calls([EpochStart(time, Pending)]) == []
  {
    RecordAppend([], EpochStart(time, Genesis), 0);
    RecordAppend([], EpochStart(time, Pending), 0);
    assert [] + [EpochStart(time, Genesis)] == [EpochStart(time, Genesis)];
    assert [] + [EpochStart(time, Pending)] == [EpochStart(time, Pending)];
  }

  /** A call is logged in an empty directory and the log rotated. */
  function LoggedAndRotated(env: Env, call: Call, c: Clock): State {
    Next(env, Next(env, Open(map[], c.start), ClientLog(call, c)), ClientRotate(c))
  }

  lemma LoggedThenRotated(env: Env, call: Call, c: Clock, rest: seq<Step>)
    requires env.maxSize > Size(env, [EpochStart(c.start, Genesis)])
    ensures var s := LoggedAndRotated(env, call, c);
            && Run(env, Open(map[], c.start), [ClientLog(call, c), ClientRotate(c)] + rest) == Run(env, s, rest)
            && s.files.Keys == {Current, Processing(c.stamp)} && s.files[Current] == [EpochStart(c.start, Pending)]
            && s.sealers == [Sealer(c.stamp, Spawned)] && s.calls == [call]
  {
    var s0 := Open(map[], c.start);
    var s1 := Next(env, s0, ClientLog(call, c));
    NoCallAtStart(c.start);
    assert !Oversize(env, s0);
    assert s1.files.Keys == {Current};
    assert s1.calls == [] + [call] == [call];
    RunFirst(env, s0, ClientLog(call, c), [ClientRotate(c)] + rest);
    RunFirst(env, s1, ClientRotate(c), rest);
    assert [ClientLog(call, c)] + ([ClientRotate(c)] + rest) == [ClientLog(call, c), ClientRotate(c)] + rest;
  }

  /** Two rotations in one second: the first epoch's records, a client's call among them, are in no
      file afterwards. */
  lemma SameSecondLosesCall(env: Env, call: Call, c: Clock, d: Clock)
    requires c.stamp == d.stamp && env.maxSize > Size(env, [EpochStart(c.start, Genesis)])
    ensures var s := Run(env, Open(map[], c.start), [ClientLog(call, c), ClientRotate(c), ClientRotate(d)]);
            s.calls == [call] && forall f :: f in s.files ==> Calls(s.files[f]) == []
  {
    var s2 := LoggedAndRotated(env, call, c);
    LoggedThenRotated(env, call, c, [ClientRotate(d)]);
    RunFirst(env, s2, ClientRotate(d), []);
    assert [ClientRotate(d)] + [] == [ClientRotate(d)];
    assert Next(env, s2, ClientRotate(d)).files.Keys == {Current, Processing(c.stamp)};
    NoCallAtStart(c.start);
    NoCallAtStart(d.start);
  }

  /** It also happens when no file of that stamp is in processing at either rotation: the first epoch has
      been sealed by then, and the second sealer's rename replaces it. */
  lemma SameSecondLosesSealedCall(env: Env, call: Call, c: Clock, d: Clock)
    requires c.stamp == d.stamp && env.maxSize > Size(env, [EpochStart(c.start, Genesis)])
    ensures var sealing := [HashFile(0), RenameFile(0)];
            var first := Run(env, LoggedAndRotated(env, call, c), sealing);
            var s := Run(env, Open(map[], c.start), [ClientLog(call, c), ClientRotate(c)]
                       + [HashFile(0), RenameFile(0), ClientRotate(d), HashFile(1), RenameFile(1)]);
            && Processing(d.stamp) !in first.files && RenamesDone(s)
            && s.calls == [call] && forall f :: f in s.files ==> Calls(s.files[f]) == []
  {
    var rest := [HashFile(0), RenameFile(0), ClientRotate(d), HashFile(1), RenameFile(1)];
    var s2 := LoggedAndRotated(env, call, c);
    LoggedThenRotated(env, call, c, rest);
    var s3 := Next(env, s2, HashFile(0));
    var s4 := Next(env, s3, RenameFile(0));
    var s5 := Next(env, s4, ClientRotate(d));
    var s6 := Next(env, s5, HashFile(1));
    var s7 := Next(env, s6, RenameFile(1));
    RunFive(env, s2, rest);
    RunFirst(env, s2, HashFile(0), [RenameFile(0)]);
    RunFirst(env, s3, RenameFile(0), []);
    assert s4.files.Keys == {Current, Sealed(c.stamp)};
    assert s5.files.Keys == {Current, Sealed(c.stamp), Processing(c.stamp)};
    assert s7.files.Keys == {Current, Sealed(c.stamp)};
    NoCallAtStart(c.start);
    NoCallAtStart(d.start);
  }

  lemma RunFive(env: Env, s: State, steps: seq<Step>)
    requires |steps| == 5
    ensures Run(env, s, steps)
         == Next(env, Next(env, Next(env, Next(env, Next(env, s, steps[0]), steps[1]), steps[2]), steps[3]), steps[4])
  {
    hide Next;
    assert steps == [steps[0]] + [steps[1], steps[2], steps[3], steps[4]];
    RunFirst(env, s, steps[0], [steps[1], steps[2], steps[3], steps[4]]);
    var s1 := Next(env, s, steps[0]);
    RunFirst(env, s1, steps[1], [steps[2], steps[3], steps[4]]);
    var s2 := Next(env, s1, steps[1]);
    RunFirst(env, s2, steps[2], [steps[3], steps[4]]);
    var s3 := Next(env, s2, steps[2]);
    RunFirst(env, s3, steps[3], [steps[4]]);
    RunFirst(env, Next(env, s3, steps[3]), steps[4], []);
  }
}
