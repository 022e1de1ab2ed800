/** koot/governance/audit/log.py stopped and started again, any number of times: each start finds the
    directory the last run has left, whatever its sealers had still to do. */
module AuditRestart {
  import opened Bytes
  import opened AuditProtocol
  import opened AuditArchives
  import opened AuditReuse

  /** One start of the logger and the steps until it stops. */
  datatype Life = Life(time: Time, steps: seq<Step>)

  function End(env: Env, files: map<FileName, File>, life: Life): State {
    Run(env, Open(files, life.time), life.steps)
  }

  /** The directory after all lives. */
  function After(env: Env, files: map<FileName, File>, lives: seq<Life>): map<FileName, File>
    decreases |lives|
  {
    if lives == [] then files else After(env, End(env, files, lives[0]).files, lives[1..])
  }

  /** The files put away in all lives, in order. */
  function PutAway(env: Env, files: map<FileName, File>, lives: seq<Life>): seq<File>
    decreases |lives|
  {
    if lives == [] then []
    else End(env, files, lives[0]).archived + PutAway(env, End(env, files, lives[0]).files, lives[1..])
  }

  ghost function CallsOf(lives: seq<Life>): seq<Call> {
    if lives == [] then [] else CallsMade(lives[0].steps) + CallsOf(lives[1..])
  }

  /** Whatever the stamps, the files ever put away and the log that is there at the end hold the calls of the
      log that was there at the start and those of every life, in order. */
  lemma {:induction false} LivesConserve(env: Env, files: map<FileName, File>, lives: seq<Life>)
    ensures Calls(Flatten(PutAway(env, files, lives)) + Found(After(env, files, lives)))
         == Calls(Found(files)) + CallsOf(lives)
    decreases |lives|
  {
    hide Run, Open, Calls, CallsMade, Found, Flatten;
    if lives == [] {
      FlattenNothing<Record>();
      assert [] + Found(files) == Found(files);
      assert Calls(Found(files)) + [] == Calls(Found(files));
    } else {
      var s, later := End(env, files, lives[0]), PutAway(env, End(env, files, lives[0]).files, lives[1..]);
      var last := Found(After(env, files, lives));
      LifeConserves(env, files, lives[0]);
      LivesConserve(env, s.files, lives[1..]);
      FlattenBoth(s.archived, later);
      CallsConcat(Flatten(s.archived), Flatten(later) + last);
      assert Flatten(s.archived + later) + last == Flatten(s.archived) + (Flatten(later) + last);
      CallsConcat(Flatten(s.archived), Found(s.files));
      calc {
        Calls(Flatten(s.archived)) + (Calls(Found(s.files)) + CallsOf(lives[1..]));
        (Calls(Flatten(s.archived)) + Calls(Found(s.files))) + CallsOf(lives[1..]);
        (Calls(Found(files)) + CallsMade(lives[0].steps)) + CallsOf(lives[1..]);
        Calls(Found(files)) + CallsOf(lives);
      }
    }
  }

  lemma LifeConserves(env: Env, files: map<FileName, File>, life: Life)
    ensures var s := End(env, files, life);
            Calls(Flatten(s.archived) + Found(s.files)) == Calls(Found(files)) + CallsMade(life.steps)
  {
    hide Run, Open, Calls, CallsMade;
    OpenConserved(files, life.time);
    HistoryConserved(env, Open(files, life.time), life.steps);
    var s := End(env, files, life);
    FlattenAppend(s.archived, s.files[Current]);
  }

  lemma {:induction false} FlattenBoth(a: seq<File>, b: seq<File>)
    ensures Flatten(a + b) == Flatten(a) + Flatten(b)
    decreases |b|
  {
    hide Flatten;
    if b == [] {
      FlattenNothing<Record>();
      assert a + b == a;
    } else {
      var n := |b| - 1;
      FlattenBoth(a, b[..n]);
      FlattenAppend(a + b[..n], b[n]);
      FlattenAppend(b[..n], b[n]);
      assert a + b == (a + b[..n]) + [b[n]] && b == b[..n] + [b[n]];
    }
  }

  // ---- Every file stays ----

  /** In each life every rotation has a stamp no file bears. */
  predicate AdmissibleLives(env: Env, files: map<FileName, File>, lives: seq<Life>)
    decreases |lives|
  {
    lives != [] ==>
      && AdmissibleRun(env, Open(files, lives[0].time), lives[0].steps)
      && AdmissibleLives(env, End(env, files, lives[0]).files, lives[1..])
  }

  /** Where the files put away in a life are when it ends. */
  function EndNames(s: State): seq<FileName> {
    seq(|s.sealers|, k requires 0 <= k < |s.sealers| => FileOf(s, k))
  }

  function Names(env: Env, files: map<FileName, File>, lives: seq<Life>): seq<FileName>
    decreases |lives|
  {
    if lives == [] then []
    else EndNames(End(env, files, lives[0])) + Names(env, End(env, files, lives[0]).files, lives[1..])
  }

  /** The files of a directory, the log apart, are in another one unchanged. */
  ghost predicate KeepsArchives(was: map<FileName, File>, files: map<FileName, File>) {
    forall f :: f in was && f != Current ==> f in files && files[f] == was[f]
  }

  lemma LifeKeeps(env: Env, files: map<FileName, File>, life: Life)
    requires Usable(files) && AdmissibleRun(env, Open(files, life.time), life.steps)
    ensures var s := End(env, files, life);
            && Usable(s.files) && KeepsArchives(files, s.files) && |s.archived| == |s.sealers|
            && (forall k :: 0 <= k < |s.sealers| ==>
                  && FileOf(s, k) != Current && FileOf(s, k) !in files
                  && FileOf(s, k) in s.files && s.files[FileOf(s, k)] == s.archived[k])
            && (forall j, k :: 0 <= j < k < |s.sealers| ==> FileOf(s, j) != FileOf(s, k))
  {
    hide Run, Open, AdmissibleRun, Usable;
    var s := End(env, files, life);
    EveryRun(env, files, life.time, life.steps);
    OpenDirectory(files, life.time);
    RunDirectory(env, files, Open(files, life.time), life.steps);
    AdmissibleExactly(env, files, life.time, life.steps);
    forall f | f in files && f != Current ensures f in s.files && s.files[f] == files[f] {
      assert !Bears(s, f.stamp);
      assert SameFile(s.files, files, f);
    }
    forall k | 0 <= k < |s.sealers|
      ensures FileOf(s, k) !in files && FileOf(s, k) in s.files && s.files[FileOf(s, k)] == s.archived[k]
    {
      assert Unused(files, s.sealers[k].stamp);
      assert FileOf(s, k) in s.files;
      assert Epochs(s)[k] == s.files[FileOf(s, k)];
      assert Epochs(s)[k] == Epochs(s)[..|s.sealers|][k];
    }
  }

  /** With fresh stamps every file ever put away, in any life, is still in the directory at the end, unchanged and
      under a name of its own, and so is every file that was there at the start; and the logger can start again. */
  lemma {:induction false} LivesKeep(env: Env, files: map<FileName, File>, lives: seq<Life>)
    requires Usable(files) && AdmissibleLives(env, files, lives)
    ensures var after, put, names := After(env, files, lives), PutAway(env, files, lives), Names(env, files, lives);
            Usable(after) && KeepsArchives(files, after) && Stored(files, after, put, names)
    decreases |lives|
  {
    hide Usable, AdmissibleRun, End, FileOf;
    if lives != [] {
      var s := End(env, files, lives[0]);
      LifeKeepsNames(env, files, lives[0]);
      LivesKeep(env, s.files, lives[1..]);
      JoinNames(files, s, After(env, files, lives), PutAway(env, s.files, lives[1..]), Names(env, s.files, lives[1..]));
    }
  }

  lemma LifeKeepsNames(env: Env, files: map<FileName, File>, life: Life)
    requires Usable(files) && AdmissibleRun(env, Open(files, life.time), life.steps)
    ensures var s := End(env, files, life);
            Usable(s.files) && KeepsArchives(files, s.files) && Stored(files, s.files, s.archived, EndNames(s))
  {
    hide Usable, AdmissibleRun, End, FileOf;
    LifeKeeps(env, files, life);
  }

  /** The files are in the directory under these names, which are different, and were not there before. */
  ghost predicate Stored(was: map<FileName, File>, files: map<FileName, File>, put: seq<File>, names: seq<FileName>) {
    && |names| == |put|
    && (forall k :: 0 <= k < |put| ==>
          names[k] != Current && names[k] !in was && names[k] in files && files[names[k]] == put[k])
    && (forall j, k :: 0 <= j < k < |names| ==> names[j] != names[k])
  }

  lemma JoinNames(files: map<FileName, File>, s: State, after: map<FileName, File>,
                  put: seq<File>, names: seq<FileName>)
    requires KeepsArchives(files, s.files) && Stored(files, s.files, s.archived, EndNames(s))
    requires KeepsArchives(s.files, after) && Stored(s.files, after, put, names)
    ensures KeepsArchives(files, after) && Stored(files, after, s.archived + put, EndNames(s) + names)
  {
    var first, all, puts := EndNames(s), EndNames(s) + names, s.archived + put;
    forall k | 0 <= k < |puts|
      ensures all[k] != Current && all[k] !in files && all[k] in after && after[all[k]] == puts[k]
    {
      if k < |first| {
        assert all[k] == first[k] && puts[k] == s.archived[k];
      } else {
        assert all[k] == names[k - |first|] && puts[k] == put[k - |first|];
      }
    }
    forall j, k | 0 <= j < k < |all| ensures all[j] != all[k] {
      if j < |first| <= k {
        assert all[j] == first[j] && all[k] == names[k - |first|];
      } else if j >= |first| {
        assert all[j] == names[j - |first|] && all[k] == names[k - |first|];
      } else {
        assert all[j] == first[j] && all[k] == first[k];
      }
    }
  }
}
