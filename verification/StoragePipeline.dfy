/** koot/storage/pipeline.py, koot/identity/ledger.py: the objects that save and retrieve. */
module StoragePipelines {
  import opened Bytes
  import opened SecretStore
  import opened AdaptiveChunking

  class ShadowLedger {
    var tenants: Ledger

    constructor (tenants: Ledger)
      ensures this.tenants == tenants
    {
      this.tenants := tenants;
    }

    method RecordIndex(tenantId: string, key: string, manifest: seq<string>)
      modifies this
      ensures tenants == UpdateIndex(old(tenants), tenantId, key, manifest)
    {
      var target := 0;
      while target < |tenants| && tenants[target].1.tenantId != tenantId
        invariant target <= |tenants|
        invariant forall j :: 0 <= j < target ==> tenants[j].1.tenantId != tenantId
      {
        target := target + 1;
      }
      FindUnique(tenants, tenantId, target);
      if target == |tenants| {
        target := 0;
        while target < |tenants| && tenants[target].0 != tenantId
          invariant target <= |tenants|
          invariant forall j :: 0 <= j < target ==> tenants[j].0 != tenantId
        {
          target := target + 1;
        }
        if target == |tenants| {
          tenants := tenants + [(tenantId, Tenant(tenantId, None))];
        }
      }
      var (ledgerKey, tenant) := tenants[target];
      if tenant.secrets.None? {
        tenant := tenant.(secrets := Some(map[]));
      }
      tenant := tenant.(secrets := Some(tenant.secrets.value[key := manifest]));
      tenants := tenants[target := (ledgerKey, tenant)];
    }

    method LookupIndex(tenantId: string, key: string) returns (manifest: Option<seq<string>>)
      ensures manifest == GetIndex(tenants, tenantId, key)
    {
      var k := 0;
      while k < |tenants|
        invariant 0 <= k <= |tenants|
        invariant forall j :: 0 <= j < k ==> tenants[j].1.tenantId != tenantId
      {
        if tenants[k].1.tenantId == tenantId {
          FindUnique(tenants, tenantId, k);
          var secrets := SecretsOf(tenants[k].1);
          return if key in secrets then Some(secrets[key]) else None;
        }
        k := k + 1;
      }
      FindUnique(tenants, tenantId, k);
      return None;
    }
  }

  lemma NothingSaved(env: Env, objects: map<string, Bytes>, t: string, k: string, chunks: seq<Bytes>)
    ensures Writes(env, objects, t, k, chunks[..0]) == objects && Ids(env, t, k, 0) == []
  {
  }

  lemma SavedOne(env: Env, objects: map<string, Bytes>, t: string, k: string, chunks: seq<Bytes>, i: nat)
    requires i < |chunks|
    ensures var id := ObfuscatedId(env, t, k) + "_part_" + Decimal(i);
            && Ids(env, t, k, i + 1) == Ids(env, t, k, i) + [id]
            && Writes(env, objects, t, k, chunks[..i + 1])
               == Writes(env, objects, t, k, chunks[..i])[SecureKey(env, t, id) := env.wrap(chunks[i])]
  {
    assert chunks[..i + 1][..i] == chunks[..i];
  }

  class StoragePipeline {
    const env: Env
    const ledger: ShadowLedger
    const chunker: AdaptiveChunker
    var objects: map<string, Bytes>

    ghost function View(): State
      reads this, ledger
    {
      State(objects, ledger.tenants)
    }

    constructor (env: Env, ledger: ShadowLedger, chunker: AdaptiveChunker, objects: map<string, Bytes>)
      ensures this.env == env && this.ledger == ledger && this.chunker == chunker
      ensures View() == State(objects, ledger.tenants)
    {
      this.env := env;
      this.ledger := ledger;
      this.chunker := chunker;
      this.objects := objects;
    }

    method SaveSecret(tenant: string, key: string, payload: Bytes, host: nat -> Host) returns (obfuscatedId: string)
      modifies this, ledger, chunker
      ensures obfuscatedId == env.idHash(tenant + ":" + key)
      ensures View() == Save(env, old(View()), tenant, key, Chunks(payload, old(chunker.View()), host, 0))
      ensures old(NeverZero(chunker.View(), host)) ==>
                WellChunked(SaveCall(tenant, key, payload, Chunks(payload, old(chunker.View()), host, 0)))
    {
      obfuscatedId := env.idHash(tenant + ":" + key);
      ghost var ramp := chunker.View();
      if NeverZero(ramp, host) {
        NothingLost(payload, ramp, host, 0);
      }
      var chunks := chunker.ProcessBytes(payload, host);
      hide Chunks, Writes, Ids, ObjectKey, ChunkId, Decimal, UpdateIndex;
      var manifest: seq<string> := [];
      var index := 0;
      NothingSaved(env, objects, tenant, key, chunks);
      while index < |chunks|
        invariant 0 <= index <= |chunks|
        invariant objects == Writes(env, old(objects), tenant, key, chunks[..index])
        invariant manifest == Ids(env, tenant, key, index)
        invariant ledger.tenants == old(ledger.tenants)
      {
        var chunkId := obfuscatedId + "_part_" + Decimal(index);
        SavedOne(env, old(objects), tenant, key, chunks, index);
        objects := objects[SecureKey(env, tenant, chunkId) := env.wrap(chunks[index])];
        manifest := manifest + [chunkId];
        index := index + 1;
      }
      assert chunks[..index] == chunks;
      ledger.RecordIndex(tenant, key, manifest);
    }

    method RetrieveSecret(tenant: string, key: string) returns (r: Result<Bytes, Error>)
      ensures r == Retrieve(env, View(), tenant, key)
      ensures RetrievedExactly(env, View(), tenant, key, r)
      ensures r.Ok? <==>
                var manifest := GetIndex(ledger.tenants, tenant, key);
                && manifest.Some? && manifest.value != []
                && forall i :: 0 <= i < |manifest.value| ==> Intact(env, View(), tenant, manifest.value[i])
    {
      Retrieved(env, View(), tenant, key);
      hide ReadChunks, GetIndex, RetrievedExactly, Intact;
      var manifest := ledger.LookupIndex(tenant, key);
      if manifest.None? || manifest.value == [] {
        return Err(NotFound);
      }
      var ids := manifest.value;
      ReadNothing(env, View(), tenant);
      var reconstructed: Bytes := [];
      var k := 0;
      while k < |ids|
        invariant 0 <= k <= |ids|
        invariant ReadChunks(env, View(), tenant, ids[..k]) == Ok(reconstructed)
      {
        ReadNext(env, View(), tenant, ids, k);
        var storageKey := SecureKey(env, tenant, ids[k]);
        if storageKey !in objects {
          EarlyError(env, View(), tenant, ids, k + 1);
          return Err(MissingChunk);
        }
        var data := env.unwrap(objects[storageKey]);
        if data.None? {
          EarlyError(env, View(), tenant, ids, k + 1);
          return Err(Malformed);
        }
        reconstructed := reconstructed + data.value;
        k := k + 1;
      }
      assert ids[..k] == ids;
      return Ok(reconstructed);
    }
  }

  /** The first chunk that cannot be read decides the outcome. */
  lemma {:induction false} EarlyError(env: Env, s: State, t: string, ids: seq<string>, n: nat)
    requires n <= |ids| && ReadChunks(env, s, t, ids[..n]).Err?
    ensures ReadChunks(env, s, t, ids) == ReadChunks(env, s, t, ids[..n])
    decreases |ids|
  {
    if n == |ids| {
      assert ids[..n] == ids;
    } else {
      var last := |ids| - 1;
      assert ids[..last][..n] == ids[..n];
      EarlyError(env, s, t, ids[..last], n);
    }
  }
}
