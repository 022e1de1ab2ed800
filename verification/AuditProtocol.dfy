/** koot/governance/audit/log.py as a state machine: the log directory, the background
    sealers, and one atomic step for each stretch of code between two scheduling points. */
module AuditProtocol {
  import opened Bytes

  type Digest = b: seq<Byte> | |b| == 32 witness seq(32, _ => 0)
  type Time = t: int | 0 <= t < 0x1_0000_0000_0000_0000

  datatype Call = Call(action: string, actor: string, details: string)

  /** The placeholder each new epoch but the first carries for its predecessor's hash. */
  datatype PrevHash = Genesis | Pending

  /** One line of a log file. A seal entry is kept apart from a client entry by who wrote it. */
  datatype Record =
    | EpochStart(time: Time, prevHash: PrevHash)
    | ClientEntry(time: Time, call: Call)
    | SealEntry(time: Time, sealedStamp: Time, finalHash: Digest)

  type File = seq<Record>

  datatype FileName = Current | Processing(stamp: Time) | Sealed(stamp: Time)

  datatype Phase = Spawned | Hashed(digest: Digest) | Renamed(digest: Digest) | Done(digest: Digest) | Failed

  datatype Sealer = Sealer(stamp: Time, phase: Phase)

  /** The directory, one sealer for each rotation in the order of the rotations, and two history
      variables: the calls whose records the current file held at the start and those of log that
      have returned since; and the file each rotation has put away. */
  datatype State = State(files: map<FileName, File>, sealers: seq<Sealer>, calls: seq<Call>, archived: seq<File>)

  datatype Env = Env(maxSize: int, line: Record -> Bytes, hash: Bytes -> Digest)

  /** The readings of the clock during one step; the stamp of a rotation is in whole seconds. */
  datatype Clock = Clock(stamp: Time, start: Time, entry: Time)

  datatype Step =
    | ClientLog(call: Call, clock: Clock)
    | ClientRotate(clock: Clock)
    | HashFile(k: nat)
    | RenameFile(k: nat)
    | WriteSeal(k: nat, clock: Clock)

  function Content(env: Env, f: File): Bytes {
    if f == [] then [] else Content(env, f[..|f| - 1]) + env.line(f[|f| - 1])
  }

  function Size(env: Env, f: File): nat { |Content(env, f)| }

  /** The bytes of a file are the lines of its records, in order. */
  lemma {:induction false} ContentConcat(env: Env, f: File, g: File)
    ensures Content(env, f + g) == Content(env, f) + Content(env, g)
    ensures |g| == 1 ==> Content(env, g) == env.line(g[0])
    decreases |g|
  {
    if g == [] {
      assert f + g == f;
    } else {
      var n := |g| - 1;
      ContentConcat(env, f, g[..n]);
      assert (f + g)[..|f + g| - 1] == f + g[..n];
    }
  }

  lemma SizeAppend(env: Env, f: File, r: Record)
    ensures Size(env, f + [r]) == Size(env, f) + |env.line(r)|
  {
    assert (f + [r])[..|f|] == f;
  }

  /** The logger starts on a directory that may hold files of an earlier run. */
  function Open(files: map<FileName, File>, time: Time): State {
    var files1 := if Current in files then files else files[Current := [EpochStart(time, Genesis)]];
    State(files1, [], Calls(files1[Current]), [])
  }

  /** The records of the log that is there at the start, if there is one. */
  function Found(files: map<FileName, File>): File {
    if Current in files then files[Current] else []
  }

  predicate Oversize(env: Env, s: State) {
    Current in s.files && Size(env, s.files[Current]) >= env.maxSize
  }

  /** _rotate_unsafe. Renaming onto an existing name replaces the file of that name. */
  function Rotate(s: State, clock: Clock): State {
    if Current !in s.files then s
    else s.(files := s.files[Processing(clock.stamp) := s.files[Current]]
                        [Current := [EpochStart(clock.start, Pending)]],
            sealers := s.sealers + [Sealer(clock.stamp, Spawned)],
            archived := s.archived + [s.files[Current]])
  }

  /** log: rotate first if the file is large, then append. */
  function Append(env: Env, s: State, r: Record, clock: Clock): State {
    var s1 := if Oversize(env, s) then Rotate(s, clock) else s;
    s1.(files := s1.files[Current := (if Current in s1.files then s1.files[Current] else []) + [r]])
  }

  function SetPhase(s: State, k: nat, phase: Phase): State
    requires k < |s.sealers|
  {
    s.(sealers := s.sealers[k := s.sealers[k].(phase := phase)])
  }

  /** A step of a sealer that is not at that point of its code changes nothing. */
  function Next(env: Env, s: State, step: Step): State {
    match step
    case ClientLog(call, clock) =>
      var s1 := Append(env, s, ClientEntry(clock.entry, call), clock);
      s1.(calls := s1.calls + [call])
    case ClientRotate(clock) => Rotate(s, clock)
    case HashFile(k) =>
      if !Enabled(s, step) then s
      else if Processing(s.sealers[k].stamp) !in s.files then SetPhase(s, k, Failed)
      else SetPhase(s, k, Hashed(env.hash(Content(env, s.files[Processing(s.sealers[k].stamp)]))))
    case RenameFile(k) =>
      if !Enabled(s, step) then s
      else
        var from, to := Processing(s.sealers[k].stamp), Sealed(s.sealers[k].stamp);
        if from !in s.files then SetPhase(s, k, Failed)
        else SetPhase(s.(files := (s.files - {from})[to := s.files[from]]), k, Renamed(s.sealers[k].phase.digest))
    case WriteSeal(k, clock) =>
      if !Enabled(s, step) then s
      else
        var digest := s.sealers[k].phase.digest;
        SetPhase(Append(env, s, SealEntry(clock.entry, s.sealers[k].stamp, digest), clock), k, Done(digest))
  }

  predicate Enabled(s: State, step: Step) {
    match step
    case HashFile(k) => k < |s.sealers| && s.sealers[k].phase.Spawned?
    case RenameFile(k) => k < |s.sealers| && s.sealers[k].phase.Hashed?
    case WriteSeal(k, _) => k < |s.sealers| && s.sealers[k].phase.Renamed?
    case _ => true
  }

  function Run(env: Env, s: State, steps: seq<Step>): State
    decreases |steps|
  {
    if steps == [] then s else Run(env, Next(env, s, steps[0]), steps[1..])
  }

  /** No file of the directory bears the stamp. */
  predicate Unused(files: map<FileName, File>, stamp: Time) {
    Processing(stamp) !in files && Sealed(stamp) !in files
  }

  predicate Rotates(env: Env, s: State, step: Step) {
    match step
    case ClientLog(_, _) => Oversize(env, s)
    case ClientRotate(_) => Current in s.files
    case WriteSeal(k, _) => Enabled(s, step) && Oversize(env, s)
    case _ => false
  }

  /** If the step rotates, its stamp is unused. */
  predicate Admissible(env: Env, s: State, step: Step) {
    Rotates(env, s, step) ==> Unused(s.files, step.clock.stamp)
  }

  predicate AdmissibleRun(env: Env, s: State, steps: seq<Step>)
    decreases |steps|
  {
    steps != [] ==> Admissible(env, s, steps[0]) && AdmissibleRun(env, Next(env, s, steps[0]), steps[1..])
  }

  // ---- Epochs ----

  /** Where the file of epoch k is: with its sealer, or still current. */
  function FileOf(s: State, k: nat): FileName
    requires k <= |s.sealers|
  {
    if k == |s.sealers| then Current
    else if s.sealers[k].phase.Spawned? || s.sealers[k].phase.Hashed? then Processing(s.sealers[k].stamp)
    else Sealed(s.sealers[k].stamp)
  }

  ghost predicate Layout(s: State) {
    && (forall k :: 0 <= k <= |s.sealers| ==> FileOf(s, k) in s.files)
    && (forall k :: 0 <= k < |s.sealers| ==> !s.sealers[k].phase.Failed?)
    && (forall j, k :: 0 <= j < k < |s.sealers| ==> s.sealers[j].stamp != s.sealers[k].stamp)
  }

  /** The files of the directory in epoch order. */
  ghost function Epochs(s: State): (e: seq<File>)
    requires Layout(s)
    ensures |e| == |s.sealers| + 1
  {
    seq(|s.sealers| + 1, k requires 0 <= k <= |s.sealers| => s.files[FileOf(s, k)])
  }

  lemma RotateLayout(s: State, clock: Clock)
    requires Layout(s) && Unused(s.files, clock.stamp)
    ensures Layout(Rotate(s, clock))
    ensures Epochs(Rotate(s, clock)) == Epochs(s) + [[EpochStart(clock.start, Pending)]]
  {
    var t := Rotate(s, clock);
    var n := |s.sealers|;
    assert FileOf(s, n) in s.files;
    forall k | 0 <= k < n ensures FileOf(t, k) == FileOf(s, k) && s.sealers[k].stamp != clock.stamp {
      assert FileOf(s, k) in s.files;
    }
    forall k | 0 <= k <= |t.sealers|
      ensures FileOf(t, k) in t.files
      ensures t.files[FileOf(t, k)] == (Epochs(s) + [[EpochStart(clock.start, Pending)]])[k]
    {
      if k < n {
        assert FileOf(s, k) in s.files;
      }
    }
  }

  ghost function Extended(epochs: seq<File>, r: Record): seq<File>
    requires epochs != []
  {
    epochs[|epochs| - 1 := epochs[|epochs| - 1] + [r]]
  }

  lemma AppendLayout(env: Env, s: State, r: Record, clock: Clock)
    requires Layout(s) && (Oversize(env, s) ==> Unused(s.files, clock.stamp))
    ensures var s1 := if Oversize(env, s) then Rotate(s, clock) else s;
            && Layout(s1) && Layout(Append(env, s, r, clock))
            && Epochs(Append(env, s, r, clock)) == Extended(Epochs(s1), r)
  {
    var s1 := if Oversize(env, s) then Rotate(s, clock) else s;
    if Oversize(env, s) {
      RotateLayout(s, clock);
    }
    ExtendLayout(s1, r);
  }

  lemma ExtendLayout(s: State, r: Record)
    requires Layout(s)
    ensures var t := s.(files := s.files[Current := (if Current in s.files then s.files[Current] else []) + [r]]);
            Layout(t) && Epochs(t) == Extended(Epochs(s), r)
  {
    var t := s.(files := s.files[Current := (if Current in s.files then s.files[Current] else []) + [r]]);
    assert FileOf(s, |s.sealers|) in s.files;
    forall k | 0 <= k <= |s.sealers| ensures FileOf(t, k) == FileOf(s, k) && FileOf(t, k) in t.files {
      assert FileOf(s, k) in s.files;
    }
  }

  /** A change of phase that moves no file. */
  lemma PhaseLayout(s: State, k: nat, phase: Phase)
    requires Layout(s) && k < |s.sealers| && !phase.Failed?
    requires FileOf(SetPhase(s, k, phase), k) == FileOf(s, k)
    ensures Layout(SetPhase(s, k, phase)) && Epochs(SetPhase(s, k, phase)) == Epochs(s)
  {
    var t := SetPhase(s, k, phase);
    forall j | 0 <= j <= |s.sealers| ensures FileOf(t, j) == FileOf(s, j) && FileOf(t, j) in t.files {
      assert FileOf(s, j) in s.files;
    }
  }

  lemma RenameLayout(env: Env, s: State, k: nat)
    requires Layout(s) && Enabled(s, RenameFile(k))
    ensures Layout(Next(env, s, RenameFile(k))) && Epochs(Next(env, s, RenameFile(k))) == Epochs(s)
  {
    var t := Next(env, s, RenameFile(k));
    assert FileOf(s, k) in s.files;
    forall j | 0 <= j <= |s.sealers|
      ensures FileOf(t, j) in t.files && t.files[FileOf(t, j)] == s.files[FileOf(s, j)]
    {
      assert FileOf(s, j) in s.files;
    }
  }

  // ---- What the records say ----

  function Calls(records: seq<Record>): seq<Call> {
    if records == [] then []
    else Calls(records[..|records| - 1])
         + match records[|records| - 1] { case ClientEntry(_, call) => [call] case _ => [] }
  }

  /** The hashes recorded as the seal of the epoch with the given stamp. */
  ghost function SealsOf(records: seq<Record>, stamp: Time): seq<Digest> {
    if records == [] then []
    else SealsOf(records[..|records| - 1], stamp)
         + match records[|records| - 1] { case SealEntry(_, st, h) => if st == stamp then [h] else [] case _ => [] }
  }

  lemma RecordAppend(records: seq<Record>, r: Record, stamp: Time)
    ensures Calls(records + [r]) == Calls(records) + match r { case ClientEntry(_, call) => [call] case _ => [] }
    ensures SealsOf(records + [r], stamp) == SealsOf(records, stamp)
              + match r { case SealEntry(_, st, h) => if st == stamp then [h] else [] case _ => [] }
  {
    assert (records + [r])[..|records|] == records;
  }

  lemma FlattenExtended(epochs: seq<File>, r: Record)
    requires epochs != []
    ensures Flatten(Extended(epochs, r)) == Flatten(epochs) + [r]
  {
    var front, last := epochs[..|epochs| - 1], epochs[|epochs| - 1];
    FlattenAppend(front, last);
    FlattenAppend(front, last + [r]);
    assert epochs == front + [last];
    assert Extended(epochs, r) == front + [last + [r]];
    assert Flatten(front) + (last + [r]) == (Flatten(front) + last) + [r];
  }

  // ---- The invariant ----

  /** No call is lost, repeated or reordered: in epoch order the files hold exactly the calls. */
  ghost predicate Conserved(s: State)
    requires Layout(s)
  {
    Calls(Flatten(Epochs(s))) == s.calls
  }

  /** An epoch has exactly one seal record when its sealer is done and none before, no seal record of
      it is in its own file or an earlier one, and the record holds the hash of its bytes. */
  ghost predicate Linked(env: Env, s: State, k: nat)
    requires Layout(s) && k < |s.sealers|
  {
    var stamp, digest := s.sealers[k].stamp, env.hash(Content(env, Epochs(s)[k]));
    && SealsOf(Flatten(Epochs(s)), stamp) == (if s.sealers[k].phase.Done? then [digest] else [])
    && SealsOf(Flatten(Epochs(s)[..k + 1]), stamp) == []
    && (s.sealers[k].phase.Hashed? || s.sealers[k].phase.Renamed? ==> s.sealers[k].phase.digest == digest)
  }

  ghost predicate NoStraySeals(s: State)
    requires Layout(s)
  {
    forall stamp: Time :: Unused(s.files, stamp) ==> SealsOf(Flatten(Epochs(s)), stamp) == []
  }

  ghost predicate Inv(env: Env, s: State) {
    && Layout(s)
    && Conserved(s)
    && NoStraySeals(s)
    && (forall k :: 0 <= k < |s.sealers| ==> Linked(env, s, k))
    && (forall k :: 0 <= k <= |s.sealers| ==> Epochs(s)[k] != [] && Epochs(s)[k][0].EpochStart?)
  }

  /** The logger can start on this directory: a current file begins with its start record, and has
      seal records only of stamps that files of the directory bear. */
  ghost predicate Usable(files: map<FileName, File>) {
    Current in files ==>
      && files[Current] != [] && files[Current][0].EpochStart?
      && forall stamp: Time :: Unused(files, stamp) ==> SealsOf(files[Current], stamp) == []
  }

  lemma OpenInv(env: Env, files: map<FileName, File>, time: Time)
    requires Usable(files)
    ensures Inv(env, Open(files, time))
    ensures Epochs(Open(files, time)) == [Open(files, time).files[Current]]
  {
    hide Calls, SealsOf;
    var s := Open(files, time);
    var f := s.files[Current];
    assert Epochs(s) == [f];
    FlattenAppend([], f);
    assert [] + [f] == [f] && [] + f == f;
    RecordAppend([], EpochStart(time, Genesis), 0);
    forall stamp: Time | Unused(s.files, stamp) ensures SealsOf(f, stamp) == [] {
      assert Unused(files, stamp);
      if Current !in files {
        NoSeals(time, stamp);
      }
    }
  }

  lemma NoSeals(time: Time, stamp: Time)
    ensures SealsOf([EpochStart(time, Genesis)], stamp) == []
  {
    RecordAppend([], EpochStart(time, Genesis), stamp);
    assert [] + [EpochStart(time, Genesis)] == [EpochStart(time, Genesis)];
  }

  lemma {:induction false} SealsConcat(a: seq<Record>, b: seq<Record>, stamp: Time)
    ensures SealsOf(a + b, stamp) == SealsOf(a, stamp) + SealsOf(b, stamp)
    decreases |b|
  {
    if b == [] {
      assert a + b == a;
    } else {
      var n := |b| - 1;
      SealsConcat(a, b[..n], stamp);
      RecordAppend(a + b[..n], b[n], stamp);
      assert a + b == a + b[..n] + [b[n]];
    }
  }

  /** Whenever the logger stops, it can be started again. */
  lemma UsableAgain(env: Env, s: State)
    requires Inv(env, s)
    ensures Usable(s.files)
  {
    hide SealsOf, Calls, Content;
    var e, n := Epochs(s), |s.sealers|;
    assert FileOf(s, n) == Current && e[n] == s.files[Current];
    assert e == e[..n] + [e[n]];
    FlattenAppend(e[..n], e[n]);
    forall stamp: Time | Unused(s.files, stamp) ensures SealsOf(s.files[Current], stamp) == [] {
      SealsConcat(Flatten(e[..n]), e[n], stamp);
    }
  }

  lemma RotateInv(env: Env, s: State, clock: Clock)
    requires Inv(env, s) && Unused(s.files, clock.stamp)
    ensures Inv(env, Rotate(s, clock))
  {
    hide Calls, SealsOf, Flatten, Content, Epochs;
    var t, r := Rotate(s, clock), EpochStart(clock.start, Pending);
    var e := Epochs(s);
    RotateLayout(s, clock);
    FlattenAppend(e, [r]);
    forall stamp: Time ensures SealsOf(Flatten(Epochs(t)), stamp) == SealsOf(Flatten(e), stamp) {
      RecordAppend(Flatten(e), r, stamp);
    }
    RecordAppend(Flatten(e), r, 0);
    forall k | 0 <= k < |s.sealers| ensures s.sealers[k].stamp != clock.stamp {
      assert FileOf(s, k) in s.files;
    }
    forall k | 0 <= k < |t.sealers| ensures Linked(env, t, k) {
      if k < |s.sealers| {
        assert Linked(env, s, k);
        assert Epochs(t)[..k + 1] == e[..k + 1];
      } else {
        assert Epochs(t)[..k + 1] == e;
      }
    }
    forall stamp: Time | Unused(t.files, stamp) ensures SealsOf(Flatten(Epochs(t)), stamp) == [] {
      assert Unused(s.files, stamp);
    }
  }

  /** No stamp comes out of use. */
  ghost predicate SameUse(s: State, t: State) {
    forall stamp: Time :: Unused(t.files, stamp) ==> Unused(s.files, stamp)
  }

  /** Appending a client's record to the last epoch. */
  lemma ExtendClientInv(env: Env, s: State, t: State, call: Call, time: Time)
    requires Inv(env, s) && Layout(t) && t.sealers == s.sealers && t.calls == s.calls + [call] && SameUse(s, t)
    requires Epochs(t) == Extended(Epochs(s), ClientEntry(time, call))
    ensures Inv(env, t)
  {
    hide SealsOf, Flatten, Content, Epochs;
    var r := ClientEntry(time, call);
    FlattenExtended(Epochs(s), r);
    RecordAppend(Flatten(Epochs(s)), r, 0);
    forall stamp: Time ensures SealsOf(Flatten(Epochs(t)), stamp) == SealsOf(Flatten(Epochs(s)), stamp) {
      RecordAppend(Flatten(Epochs(s)), r, stamp);
    }
    forall k | 0 <= k < |t.sealers| ensures Linked(env, t, k) {
      assert Linked(env, s, k);
      assert Epochs(t)[..k + 1] == Epochs(s)[..k + 1];
    }
  }

  lemma ExtendSealLinked(env: Env, s: State, t: State, k: nat, time: Time, j: nat)
    requires Inv(env, s) && Layout(t) && k < |s.sealers| && s.sealers[k].phase.Renamed? && j < |s.sealers|
    requires t.sealers == s.sealers[k := s.sealers[k].(phase := Done(s.sealers[k].phase.digest))]
    requires Epochs(t) == Extended(Epochs(s), SealEntry(time, s.sealers[k].stamp, s.sealers[k].phase.digest))
    ensures Linked(env, t, j)
  {
    hide Calls, SealsOf, Flatten, Content, Epochs;
    var r := SealEntry(time, s.sealers[k].stamp, s.sealers[k].phase.digest);
    assert Linked(env, s, j) && Linked(env, s, k);
    FlattenExtended(Epochs(s), r);
    assert Epochs(t)[..j + 1] == Epochs(s)[..j + 1];
    RecordAppend(Flatten(Epochs(s)), r, s.sealers[j].stamp);
  }

  /** Appending the seal record of epoch k, whose sealer is then done. */
  lemma ExtendSealInv(env: Env, s: State, t: State, k: nat, time: Time)
    requires Inv(env, s) && Layout(t) && k < |s.sealers| && s.sealers[k].phase.Renamed?
    requires t.calls == s.calls && SameUse(s, t)
    requires t.sealers == s.sealers[k := s.sealers[k].(phase := Done(s.sealers[k].phase.digest))]
    requires Epochs(t) == Extended(Epochs(s), SealEntry(time, s.sealers[k].stamp, s.sealers[k].phase.digest))
    ensures Inv(env, t)
  {
    hide Calls, SealsOf, Flatten, Content, Epochs;
    var r := SealEntry(time, s.sealers[k].stamp, s.sealers[k].phase.digest);
    FlattenExtended(Epochs(s), r);
    RecordAppend(Flatten(Epochs(s)), r, 0);
    forall j | 0 <= j < |t.sealers| ensures Linked(env, t, j) {
      ExtendSealLinked(env, s, t, k, time, j);
    }
    assert FileOf(s, k) in s.files;
    forall stamp: Time | Unused(t.files, stamp) ensures SealsOf(Flatten(Epochs(t)), stamp) == [] {
      RecordAppend(Flatten(Epochs(s)), r, stamp);
    }
  }

  /** A sealer that hashes or renames: the epochs and the other sealers stay as they are. */
  lemma SamePhasesInv(env: Env, s: State, t: State, k: nat, phase: Phase)
    requires Inv(env, s) && Layout(t) && k < |s.sealers| && t.calls == s.calls && Epochs(t) == Epochs(s)
    requires SameUse(s, t)
    requires t.sealers == s.sealers[k := s.sealers[k].(phase := phase)] && !s.sealers[k].phase.Done?
    requires (phase.Hashed? || phase.Renamed?) && phase.digest == env.hash(Content(env, Epochs(s)[k]))
    ensures Inv(env, t)
  {
    forall j | 0 <= j < |t.sealers| ensures Linked(env, t, j) {
      assert Linked(env, s, j);
    }
  }

  /** What every step of clients and sealers keeps. */
  lemma NextInv(env: Env, s: State, step: Step)
    requires Inv(env, s) && Admissible(env, s, step)
    ensures Inv(env, Next(env, s, step))
  {
    hide Inv, Epochs;
    var t := Next(env, s, step);
    match step
    case ClientLog(call, clock) =>
      AppendInv(env, s, step);
    case ClientRotate(clock) =>
      RotateStepInv(env, s, clock);
    case HashFile(k) =>
      HashInv(env, s, k);
    case RenameFile(k) =>
      RenameInv(env, s, k);
    case WriteSeal(k, clock) =>
      AppendInv(env, s, step);
  }

  lemma RotateStepInv(env: Env, s: State, clock: Clock)
    requires Inv(env, s) && Admissible(env, s, ClientRotate(clock))
    ensures Inv(env, Next(env, s, ClientRotate(clock)))
  {
    assert FileOf(s, |s.sealers|) in s.files;
    RotateInv(env, s, clock);
  }

  lemma HashInv(env: Env, s: State, k: nat)
    requires Inv(env, s)
    ensures Inv(env, Next(env, s, HashFile(k)))
  {
    if Enabled(s, HashFile(k)) {
      assert FileOf(s, k) in s.files;
      var phase := Hashed(env.hash(Content(env, s.files[FileOf(s, k)])));
      PhaseLayout(s, k, phase);
      SamePhasesInv(env, s, Next(env, s, HashFile(k)), k, phase);
    }
  }

  lemma RenameInv(env: Env, s: State, k: nat)
    requires Inv(env, s)
    ensures Inv(env, Next(env, s, RenameFile(k)))
  {
    if Enabled(s, RenameFile(k)) {
      assert FileOf(s, k) in s.files;
      assert Linked(env, s, k);
      RenameLayout(env, s, k);
      SamePhasesInv(env, s, Next(env, s, RenameFile(k)), k, Renamed(s.sealers[k].phase.digest));
    }
  }

  lemma AppendInv(env: Env, s: State, step: Step)
    requires Inv(env, s) && Admissible(env, s, step) && (step.ClientLog? || step.WriteSeal?)
    ensures Inv(env, Next(env, s, step))
  {
    if Enabled(s, step) {
      var s1 := if Oversize(env, s) then Rotate(s, step.clock) else s;
      if Oversize(env, s) {
        RotateInv(env, s, step.clock);
      }
      var t := Next(env, s, step);
      match step {
        case ClientLog(call, clock) =>
          var r := ClientEntry(clock.entry, call);
          AppendLayout(env, s, r, clock);
          SameFiles(Append(env, s, r, clock), t);
          ExtendClientInv(env, s1, t, call, clock.entry);
        case WriteSeal(k, clock) =>
          var r := SealEntry(clock.entry, s.sealers[k].stamp, s.sealers[k].phase.digest);
          AppendLayout(env, s, r, clock);
          PhaseLayout(Append(env, s, r, clock), k, Done(s.sealers[k].phase.digest));
          ExtendSealInv(env, s1, t, k, clock.entry);
      }
    }
  }

  lemma SameFiles(s: State, t: State)
    requires Layout(s) && t.files == s.files && t.sealers == s.sealers
    ensures Layout(t) && Epochs(t) == Epochs(s)
  {
    forall k | 0 <= k <= |s.sealers| ensures FileOf(t, k) == FileOf(s, k) && FileOf(t, k) in t.files {
      assert FileOf(s, k) in s.files;
    }
  }

  lemma {:induction false} RunInv(env: Env, s: State, steps: seq<Step>)
    requires Inv(env, s) && AdmissibleRun(env, s, steps)
    ensures Inv(env, Run(env, s, steps))
    decreases |steps|
  {
    if steps != [] {
      NextInv(env, s, steps[0]);
      RunInv(env, Next(env, s, steps[0]), steps[1..]);
    }
  }

  /** Every run of any interleaving, from an empty directory or one the logger has left, conserves the
      calls, those of the log that was there and those made since, links every epoch to its one seal
      record, and leaves a directory to start from again. */
  lemma EveryRun(env: Env, files: map<FileName, File>, time: Time, steps: seq<Step>)
    requires Usable(files) && AdmissibleRun(env, Open(files, time), steps)
    ensures var s := Run(env, Open(files, time), steps);
            && Layout(s)
            && Calls(Flatten(Epochs(s))) == s.calls == Calls(Found(files)) + CallsMade(steps)
            && (forall k :: 0 <= k < |s.sealers| ==> Linked(env, s, k))
            && Usable(s.files)
  {
    hide Run, AdmissibleRun, Linked, Calls, Epochs, Open, Usable;
    OpenKeeps(files, time);
    OpenInv(env, files, time);
    RunInv(env, Open(files, time), steps);
    RunCalls(env, Open(files, time), steps);
    UsableAgain(env, Run(env, Open(files, time), steps));
  }

  /** Starting the logger keeps every file, and makes a current one only if there is none. */
  lemma OpenKeeps(files: map<FileName, File>, time: Time)
    ensures var s := Open(files, time);
            && Current in s.files && s.calls == Calls(Found(files))
            && (forall f :: f in files ==> f in s.files && s.files[f] == files[f])
            && (forall f :: f in s.files && f !in files ==> f == Current)
            && (Current !in files ==> s.files[Current] == [EpochStart(time, Genesis)])
  {
    RecordAppend([], EpochStart(time, Genesis), 0);
    assert [] + [EpochStart(time, Genesis)] == [EpochStart(time, Genesis)];
  }

  ghost function CallsMade(steps: seq<Step>): seq<Call> {
    if steps == [] then [] else (if steps[0].ClientLog? then [steps[0].call] else []) + CallsMade(steps[1..])
  }

  lemma {:induction false} RunCalls(env: Env, s: State, steps: seq<Step>)
    ensures Run(env, s, steps).calls == s.calls + CallsMade(steps)
    decreases |steps|
  {
    hide Next;
    if steps != [] {
      NextCalls(env, s, steps[0]);
      RunCalls(env, Next(env, s, steps[0]), steps[1..]);
    }
  }

  lemma NextCalls(env: Env, s: State, step: Step)
    ensures Next(env, s, step).calls == s.calls + (if step.ClientLog? then [step.call] else [])
  {
  }

  // ---- Sealed epochs are frozen ----

  lemma NextFrozen(env: Env, s: State, step: Step, k: nat)
    requires Inv(env, s) && Admissible(env, s, step) && k < |s.sealers|
    ensures Inv(env, Next(env, s, step))
    ensures |s.sealers| <= |Next(env, s, step).sealers|
    ensures Epochs(Next(env, s, step))[k] == Epochs(s)[k]
    ensures Next(env, s, step).sealers[k].stamp == s.sealers[k].stamp
  {
    NextInv(env, s, step);
    var t := Next(env, s, step);
    match step
    case ClientLog(call, clock) =>
      var r := ClientEntry(clock.entry, call);
      AppendLayout(env, s, r, clock);
      if Oversize(env, s) { RotateLayout(s, clock); }
      SameFiles(Append(env, s, r, clock), t);
    case ClientRotate(clock) =>
      assert FileOf(s, |s.sealers|) in s.files;
      RotateLayout(s, clock);
    case HashFile(j) =>
      if Enabled(s, step) {
        assert FileOf(s, j) in s.files;
        PhaseLayout(s, j, t.sealers[j].phase);
      }
    case RenameFile(j) =>
      if Enabled(s, step) {
        RenameLayout(env, s, j);
      }
    case WriteSeal(j, clock) =>
      if Enabled(s, step) {
        var r := SealEntry(clock.entry, s.sealers[j].stamp, s.sealers[j].phase.digest);
        AppendLayout(env, s, r, clock);
        if Oversize(env, s) { RotateLayout(s, clock); }
        PhaseLayout(Append(env, s, r, clock), j, Done(s.sealers[j].phase.digest));
      }
  }

  /** Once rotated away, an epoch's records never change, whatever happens afterwards. */
  lemma {:induction false} RunFrozen(env: Env, s: State, steps: seq<Step>, k: nat)
    requires Inv(env, s) && AdmissibleRun(env, s, steps) && k < |s.sealers|
    ensures var t := Run(env, s, steps);
            && Inv(env, t) && |s.sealers| <= |t.sealers|
            && Epochs(t)[k] == Epochs(s)[k] && t.sealers[k].stamp == s.sealers[k].stamp
    decreases |steps|
  {
    if steps != [] {
      NextFrozen(env, s, steps[0], k);
      RunFrozen(env, Next(env, s, steps[0]), steps[1..], k);
    }
  }

  // ---- Files stay near the limit ----

  /** From the given record on, nothing was appended to a file that had reached the limit. */
  ghost predicate NearLimit(env: Env, f: File, first: nat) {
    forall i :: first <= i < |f| ==> Size(env, f[..i]) < env.maxSize
  }

  /** The first record appended under the limit: the third, and in the file found at the start the first
      that was not there. */
  function FirstChecked(found: nat, k: nat): nat { if k == 0 then found else 2 }

  /** Of the files put away and of the current one. */
  ghost predicate AllNearLimit(env: Env, s: State, found: nat) {
    && Current in s.files
    && (forall k :: 0 <= k < |s.archived| ==> NearLimit(env, s.archived[k], FirstChecked(found, k)))
    && NearLimit(env, s.files[Current], FirstChecked(found, |s.archived|))
  }

  lemma AppendNearLimit(env: Env, s: State, r: Record, clock: Clock, found: nat)
    requires AllNearLimit(env, s, found)
    ensures AllNearLimit(env, Append(env, s, r, clock), found)
  {
    var s1 := if Oversize(env, s) then Rotate(s, clock) else s;
    var f := s1.files[Current];
    forall i | FirstChecked(found, |s1.archived|) <= i < |f| + 1 ensures Size(env, (f + [r])[..i]) < env.maxSize {
      assert (f + [r])[..i] == f[..i] && f[..|f|] == f;
    }
  }

  lemma NextNearLimit(env: Env, s: State, step: Step, found: nat)
    requires AllNearLimit(env, s, found)
    ensures AllNearLimit(env, Next(env, s, step), found)
  {
    match step
    case ClientLog(call, clock) =>
      AppendNearLimit(env, s, ClientEntry(clock.entry, call), clock, found);
    case WriteSeal(k, clock) =>
      if Enabled(s, step) {
        AppendNearLimit(env, s, SealEntry(clock.entry, s.sealers[k].stamp, s.sealers[k].phase.digest), clock, found);
      }
    case _ =>
  }

  /** In every run, with any stamps, every file was below the limit before each record appended to it,
      its first two apart: it outgrows the limit by at most one record. */
  lemma EveryFileNearLimit(env: Env, files: map<FileName, File>, time: Time, steps: seq<Step>)
    ensures AllNearLimit(env, Run(env, Open(files, time), steps), if Current in files then |files[Current]| else 1)
  {
    RunNearLimit(env, Open(files, time), steps, if Current in files then |files[Current]| else 1);
  }

  lemma {:induction false} RunNearLimit(env: Env, s: State, steps: seq<Step>, found: nat)
    requires AllNearLimit(env, s, found)
    ensures AllNearLimit(env, Run(env, s, steps), found)
    decreases |steps|
  {
    hide AllNearLimit, Next;
    if steps != [] {
      NextNearLimit(env, s, steps[0], found);
      RunNearLimit(env, Next(env, s, steps[0]), steps[1..], found);
    }
  }

  // ---- No file is put away early ----

  /** Every file put away from the given one on had reached the limit. */
  ghost predicate PutAwayFull(env: Env, s: State, from: nat) {
    forall k :: from <= k < |s.archived| ==> Size(env, s.archived[k]) >= env.maxSize
  }

  /** Logging and sealing rotate only a file that has reached the limit. */
  lemma {:induction false} RotatedWhenFull(env: Env, s: State, steps: seq<Step>, from: nat)
    requires PutAwayFull(env, s, from)
    requires forall i :: 0 <= i < |steps| ==> !steps[i].ClientRotate?
    ensures PutAwayFull(env, Run(env, s, steps), from)
    decreases |steps|
  {
    if steps != [] {
      StepRotatesFull(env, s, steps[0], from);
      hide Next, PutAwayFull;
      RotatedWhenFull(env, Next(env, s, steps[0]), steps[1..], from);
    }
  }

  lemma StepRotatesFull(env: Env, s: State, step: Step, from: nat)
    requires PutAwayFull(env, s, from) && !step.ClientRotate?
    ensures PutAwayFull(env, Next(env, s, step), from)
  {
    hide Size;
  }

  /** A manual rotation puts the current file away whatever its size, and only that. */
  lemma ManualRotation(env: Env, s: State, clock: Clock)
    requires Current in s.files
    ensures var t := Next(env, s, ClientRotate(clock));
            && t.archived == s.archived + [s.files[Current]] && t.files[Current] == [EpochStart(clock.start, Pending)]
            && t.files[Processing(clock.stamp)] == s.files[Current]
  {
  }
}
