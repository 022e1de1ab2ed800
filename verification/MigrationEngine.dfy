/** koot/storage/migration/differ.py: the engine over two adapters, each a manifest table and a
    chunk table as in the migration tests. */
module MigrationEngine {
  import opened Bytes
  import opened Migration

  class StorageAdapter {
    var manifests: map<string, Manifest>
    var chunks: map<Key, Bytes>

    ghost function View(): Store
      reads this
    {
      Store(manifests, chunks)
    }

    method GetManifest(env: string) returns (m: Option<Manifest>)
      ensures m == ManifestOf(View(), env)
    {
      return if env in manifests then Some(manifests[env]) else None;
    }

    method ReadChunk(env: string, id: string) returns (data: Option<Bytes>)
      ensures data == if (env, id) in chunks then Some(chunks[(env, id)]) else None
    {
      return if (env, id) in chunks then Some(chunks[(env, id)]) else None;
    }

    method WriteChunk(env: string, id: string, data: Bytes)
      modifies this`chunks
      ensures chunks == old(chunks)[(env, id) := data]
    {
      chunks := chunks[(env, id) := data];
    }

    method WriteManifest(env: string, m: Manifest)
      modifies this`manifests
      ensures manifests == old(manifests)[env := m]
    {
      manifests := manifests[env := m];
    }
  }

  class LiveMigrationEngine {
    const source: StorageAdapter
    const dest: StorageAdapter

    constructor (source: StorageAdapter, dest: StorageAdapter)
      ensures this.source == source && this.dest == dest
    {
      this.source := source;
      this.dest := dest;
    }

    /** Aborted stands for the ValueError of a missing source chunk, NotFound for False, the others for True. */
    method SyncEnvelope(env: string) returns (result: SyncResult)
      modifies dest
      ensures (dest.View(), result) == Sync(old(source.View()), old(dest.View()), env)
    {
      var sourceManifest := source.GetManifest(env);
      var destManifest := dest.GetManifest(env);
      if sourceManifest.None? {
        return NotFound;
      }
      var chunksToTransfer: seq<string>;
      if destManifest.None? {
        chunksToTransfer := sourceManifest.value.ids;
      } else {
        if sourceManifest.value.rootHash == destManifest.value.rootHash {
          return Bypassed;
        }
        chunksToTransfer := CalculateDelta(sourceManifest.value, destManifest.value);
      }
      var ok := PipelineChunks(env, chunksToTransfer);
      if !ok {
        return Aborted;
      }
      assert chunksToTransfer[..|chunksToTransfer|] == chunksToTransfer;
      dest.WriteManifest(env, sourceManifest.value);
      return Migrated;
    }

    method CalculateDelta(sourceManifest: Manifest, destManifest: Manifest) returns (delta: seq<string>)
      ensures delta == DeltaOf(sourceManifest, destManifest, sourceManifest.ids)
      ensures forall id :: id in delta <==> id in sourceManifest.ids && Differs(sourceManifest, destManifest, id)
    {
      delta := [];
      var ids := sourceManifest.ids;
      var k := 0;
      while k < |ids|
        invariant 0 <= k <= |ids|
        invariant delta == DeltaOf(sourceManifest, destManifest, ids[..k])
      {
        assert ids[..k + 1][..k] == ids[..k];
        if Differs(sourceManifest, destManifest, ids[k]) {
          delta := delta + [ids[k]];
        }
        k := k + 1;
      }
      assert ids[..k] == ids;
      forall id ensures id in delta <==> id in ids && Differs(sourceManifest, destManifest, id) {
        DeltaExact(sourceManifest, destManifest, ids, id);
      }
    }

    /** False stands for the exception on the first chunk that cannot be read. */
    method PipelineChunks(env: string, ids: seq<string>) returns (ok: bool)
      modifies dest`chunks
      ensures var n := Readable(old(source.View()), env, ids);
              && ok == (n == |ids|)
              && dest.View() == Written(old(source.View()), old(dest.View()), env, ids[..n])
    {
      hide Written, Readable;
      ghost var was, start := source.View(), dest.View();
      var k := 0;
      NothingWritten(was, start, env, ids);
      while k < |ids|
        invariant 0 <= k <= |ids|
        invariant source.View() == was
        invariant dest.View() == Written(was, start, env, ids[..k])
        invariant Readable(was, env, ids) == k + Readable(was, env, ids[k..])
      {
        ReadableStep(was, env, ids, k);
        var data := source.ReadChunk(env, ids[k]);
        if data.None? {
          return false;
        }
        OneMoreWritten(was, start, env, ids, k);
        dest.WriteChunk(env, ids[k], data.value);
        assert source == dest ==> dest.chunks == was.chunks;
        k := k + 1;
      }
      return true;
    }
  }

  lemma NothingWritten(source: Store, dest: Store, env: string, ids: seq<string>)
    ensures Written(source, dest, env, ids[..0]) == dest
    ensures ids[0..] == ids
  {
    assert Written(source, dest, env, ids[..0]).chunks == dest.chunks;
  }

  lemma ReadableStep(source: Store, env: string, ids: seq<string>, k: nat)
    requires k < |ids|
    ensures Readable(source, env, ids[k..]) ==
              if (env, ids[k]) in source.chunks then 1 + Readable(source, env, ids[k + 1..]) else 0
    ensures Readable(source, env, ids[|ids|..]) == 0
  {
    assert ids[k..][1..] == ids[k + 1..];
  }

  lemma OneMoreWritten(source: Store, dest: Store, env: string, ids: seq<string>, k: nat)
    requires k < |ids| && (env, ids[k]) in source.chunks
    ensures var w := Written(source, dest, env, ids[..k]);
            Written(source, dest, env, ids[..k + 1])
            == w.(chunks := w.chunks[(env, ids[k]) := source.chunks[(env, ids[k])]])
  {
    assert ids[..k + 1] == ids[..k] + [ids[k]];
    assert Written(source, dest, env, ids[..k]).chunks[(env, ids[k]) := source.chunks[(env, ids[k])]]
        == Written(source, dest, env, ids[..k + 1]).chunks;
  }
}
