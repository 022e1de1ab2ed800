/** koot/governance/audit/log.py: the logger and its sealer threads, step by step. Each public
    call holds the lock throughout; a sealer thread runs SealHash, SealRename and SealLog in turn. */
module AuditLogging {
  import opened Bytes
  import opened AuditProtocol

  const BLOCK: nat := 8192

  class AuditLogger {
    const env: Env
    var files: map<FileName, File>
    var sealers: seq<Sealer>
    ghost var calls: seq<Call>
    ghost var archived: seq<File>

    ghost function View(): State
      reads this
    {
      State(files, sealers, calls, archived)
    }

    /** The directory may hold files already. */
    constructor (env: Env, existing: map<FileName, File>, time: Time)
      ensures this.env == env && View() == Open(existing, time)
      ensures forall f :: f in existing ==> f in files && files[f] == existing[f]
      ensures files == if Current in existing then existing else existing[Current := [EpochStart(time, Genesis)]]
      ensures sealers == [] && calls == Calls(Found(existing))
    {
      OpenKeeps(existing, time);
      this.env := env;
      files := existing;
      sealers := [];
      archived := [];
      new;
      if Current !in files {
        StartNewEpoch(Genesis, time);
      }
      calls := Calls(files[Current]);
    }

    method StartNewEpoch(prevHash: PrevHash, time: Time)
      modifies this`files
      ensures files == old(files)[Current := [EpochStart(time, prevHash)]]
    {
      files := files[Current := [EpochStart(time, prevHash)]];
    }

    method RotateUnsafe(clock: Clock)
      modifies this`files, this`sealers, this`archived
      ensures View() == Rotate(old(View()), clock)
    {
      if Current !in files {
        return;
      }
      var processing := Processing(clock.stamp);
      var content := files[Current];
      files := files - {Current};
      files := files[processing := content];
      StartNewEpoch(Pending, clock.start);
      sealers := sealers + [Sealer(clock.stamp, Spawned)];
      archived := archived + [content];
    }

    /** The locked part of log, for a client's record or a sealer's. */
    method AppendRecord(record: Record, clock: Clock)
      modifies this`files, this`sealers, this`archived
      ensures View() == Append(env, old(View()), record, clock)
    {
      if Current in files && Size(env, files[Current]) >= env.maxSize {
        RotateUnsafe(clock);
      }
      var existing := if Current in files then files[Current] else [];
      files := files[Current := existing + [record]];
    }

    method Log(call: Call, clock: Clock)
      modifies this
      ensures View() == Next(env, old(View()), ClientLog(call, clock))
    {
      AppendRecord(ClientEntry(clock.entry, call), clock);
      calls := calls + [call];
    }

    method RotateNow(clock: Clock)
      modifies this
      ensures View() == Next(env, old(View()), ClientRotate(clock))
    {
      RotateUnsafe(clock);
    }

    /** The digest of a file read in blocks; the hasher holds what it has been given so far. */
    method HashInBlocks(content: Bytes) returns (digest: Digest)
      ensures digest == env.hash(content)
    {
      var hasher: Bytes := [];
      var position := 0;
      while position < |content|
        invariant 0 <= position <= |content| && hasher == content[..position]
      {
        var end := if position + BLOCK < |content| then position + BLOCK else |content|;
        hasher := hasher + content[position..end];
        position := end;
      }
      assert content[..|content|] == content;
      return env.hash(hasher);
    }

    method SealHash(k: nat)
      requires k < |sealers| && sealers[k].phase.Spawned?
      modifies this`sealers
      ensures View() == Next(env, old(View()), HashFile(k))
    {
      var processing := Processing(sealers[k].stamp);
      if processing !in files {
        sealers := sealers[k := sealers[k].(phase := Failed)];
      } else {
        var digest := HashInBlocks(Content(env, files[processing]));
        sealers := sealers[k := sealers[k].(phase := Hashed(digest))];
      }
    }

    method SealRename(k: nat)
      requires k < |sealers| && sealers[k].phase.Hashed?
      modifies this`files, this`sealers
      ensures View() == Next(env, old(View()), RenameFile(k))
    {
      var stamp := sealers[k].stamp;
      if Processing(stamp) !in files {
        sealers := sealers[k := sealers[k].(phase := Failed)];
      } else {
        var content := files[Processing(stamp)];
        files := files - {Processing(stamp)};
        files := files[Sealed(stamp) := content];
        sealers := sealers[k := sealers[k].(phase := Renamed(sealers[k].phase.digest))];
      }
    }

    method SealLog(k: nat, clock: Clock)
      requires k < |sealers| && sealers[k].phase.Renamed?
      modifies this`files, this`sealers, this`archived
      ensures View() == Next(env, old(View()), WriteSeal(k, clock))
    {
      AppendRecord(SealEntry(clock.entry, sealers[k].stamp, sealers[k].phase.digest), clock);
      sealers := sealers[k := sealers[k].(phase := Done(sealers[k].phase.digest))];
    }
  }
}
