/** koot/storage/pipeline.py over koot/identity/ledger.py and koot/storage/adapters/base.py: a
    chunked store under derived keys, and the plain map from (tenant, key) to bytes that it simulates. */
module SecretStore {
  import opened Bytes

  /** The hashes, which give fixed-length hexadecimal strings, and the envelope codec. */
  datatype Env = Env(tenantHash: string -> string, idHash: string -> string,
                     wrap: Bytes -> Bytes, unwrap: Bytes -> Option<Bytes>)

  /** No two of the names collide; of other strings nothing is asked but the length of their hashes. */
  ghost predicate Sound(env: Env, names: set<string>) {
    && (forall t, u :: t in names && u in names && env.tenantHash(t) == env.tenantHash(u) ==> t == u)
    && (forall t, u :: t in names && u in names && env.idHash(t) == env.idHash(u) ==> t == u)
    && (forall t :: |env.tenantHash(t)| == 32 && |env.idHash(t)| == 32)
    && (forall b :: env.unwrap(env.wrap(b)) == Some(b))
  }

  /** The strings that are hashed for the tenant and the key are among the names. */
  predicate Known(names: set<string>, tenant: string, key: string) {
    tenant in names && tenant + ":" + key in names
  }

  // ---- Keys ----

  function Digit(d: nat): char
    requires d < 10
  {
    "0123456789"[d]
  }

  function Decimal(n: nat): (s: string)
    ensures s != []
  {
    if n < 10 then [Digit(n)] else Decimal(n / 10) + [Digit(n % 10)]
  }

  lemma {:induction false} DecimalInjective(m: nat, n: nat)
    requires Decimal(m) == Decimal(n)
    ensures m == n
    decreases m
  {
    var s, t := Decimal(m), Decimal(n);
    assert s[|s| - 1] == Digit(m % 10) && t[|t| - 1] == Digit(n % 10);
    DigitInjective(m % 10, n % 10);
    if m >= 10 && n >= 10 {
      assert s[..|s| - 1] == Decimal(m / 10) && t[..|t| - 1] == Decimal(n / 10);
      DecimalInjective(m / 10, n / 10);
    }
  }

  lemma DigitInjective(c: nat, d: nat)
    requires c < 10 && d < 10 && Digit(c) == Digit(d)
    ensures c == d
  {
  }

  function ObfuscatedId(env: Env, tenant: string, key: string): string {
    env.idHash(tenant + ":" + key)
  }

  function ChunkId(env: Env, tenant: string, key: string, index: nat): string {
    ObfuscatedId(env, tenant, key) + "_part_" + Decimal(index)
  }

  /** derive_secure_key. */
  function SecureKey(env: Env, tenant: string, rawKey: string): string {
    env.tenantHash(tenant) + "_" + rawKey
  }

  function ObjectKey(env: Env, tenant: string, key: string, index: nat): string {
    SecureKey(env, tenant, ChunkId(env, tenant, key, index))
  }

  /** Different chunks never share a storage key, across keys and tenants. */
  lemma ObjectKeyInjective(env: Env, names: set<string>, t: string, k: string, i: nat, u: string, l: string, j: nat)
    requires Sound(env, names) && Known(names, t, k) && Known(names, u, l)
    requires ObjectKey(env, t, k, i) == ObjectKey(env, u, l, j)
    ensures t == u && k == l && i == j
  {
    var a, b := ChunkId(env, t, k, i), ChunkId(env, u, l, j);
    assert ObjectKey(env, t, k, i) == env.tenantHash(t) + ("_" + a);
    assert ObjectKey(env, u, l, j) == env.tenantHash(u) + ("_" + b);
    SameLengthSplit(env.tenantHash(t), "_" + a, env.tenantHash(u), "_" + b);
    SameLengthSplit("_", a, "_", b);
    var x, y := ObfuscatedId(env, t, k), ObfuscatedId(env, u, l);
    assert a == x + ("_part_" + Decimal(i)) && b == y + ("_part_" + Decimal(j));
    SameLengthSplit(x, "_part_" + Decimal(i), y, "_part_" + Decimal(j));
    SameLengthSplit("_part_", Decimal(i), "_part_", Decimal(j));
    DecimalInjective(i, j);
    assert t + ":" + k == (t + ":") + k && u + ":" + l == (u + ":") + l;
    SameLengthSplit(t + ":", k, u + ":", l);
  }

  /** The storage key, spelled out. */
  lemma ObjectKeyLayout(env: Env, t: string, k: string, i: nat)
    ensures ObjectKey(env, t, k, i) == env.tenantHash(t) + "_" + env.idHash(t + ":" + k) + "_part_" + Decimal(i)
  {
    var id := env.idHash(t + ":" + k);
    var front := env.tenantHash(t) + "_";
    assert front + (id + "_part_" + Decimal(i)) == front + id + "_part_" + Decimal(i);
  }

  function DigitValue(c: char): nat { if '0' <= c <= '9' then c as nat - '0' as nat else 0 }

  /** The number a string of decimal digits denotes, the last digit counting ones. */
  function ReadDecimal(s: string): nat {
    if s == [] then 0 else 10 * ReadDecimal(s[..|s| - 1]) + DigitValue(s[|s| - 1])
  }

  lemma {:induction false} DecimalDenotes(n: nat)
    ensures ReadDecimal(Decimal(n)) == n && (Decimal(n)[0] == '0' <==> n == 0)
  {
    hide ReadDecimal, DigitValue;
    DigitDenotes(n % 10);
    if n >= 10 {
      DecimalDenotes(n / 10);
      ReadOneMore(Decimal(n / 10), Digit(n % 10));
    } else {
      ReadOneMore([], Digit(n));
      assert [] + [Digit(n)] == Decimal(n);
    }
  }

  lemma ReadOneMore(s: string, c: char)
    ensures ReadDecimal(s + [c]) == 10 * ReadDecimal(s) + DigitValue(c) && ReadDecimal([]) == 0
  {
    assert (s + [c])[..|s|] == s;
  }

  lemma DigitDenotes(d: nat)
    requires d < 10
    ensures DigitValue(Digit(d)) == d && (Digit(d) == '0' <==> d == 0)
  {
  }

  // ---- The ledger ----

  datatype Tenant = Tenant(tenantId: string, secrets: Option<map<string, seq<string>>>)

  /** db["tenants"] in its iteration order; the ledger key of a provisioned tenant is a certificate hash. */
  type Ledger = seq<(string, Tenant)>

  /** The position of the first record of the tenant, or |ledger|. */
  function Find(ledger: Ledger, tenantId: string): (i: nat)
    ensures i <= |ledger| && (i < |ledger| ==> ledger[i].1.tenantId == tenantId)
    ensures forall j :: 0 <= j < i ==> ledger[j].1.tenantId != tenantId
  {
    if ledger == [] || ledger[0].1.tenantId == tenantId then 0 else 1 + Find(ledger[1..], tenantId)
  }

  function FindKey(ledger: Ledger, key: string): (i: nat)
    ensures i <= |ledger| && (i < |ledger| ==> ledger[i].0 == key)
    ensures forall j :: 0 <= j < i ==> ledger[j].0 != key
  {
    if ledger == [] || ledger[0].0 == key then 0 else 1 + FindKey(ledger[1..], key)
  }

  function SecretsOf(t: Tenant): map<string, seq<string>> {
    if t.secrets.Some? then t.secrets.value else map[]
  }

  function WithIndex(t: Tenant, key: string, manifest: seq<string>): Tenant {
    t.(secrets := Some(SecretsOf(t)[key := manifest]))
  }

  function UpdateIndex(ledger: Ledger, tenantId: string, key: string, manifest: seq<string>): Ledger {
    var i := Find(ledger, tenantId);
    var j := if i < |ledger| then i else FindKey(ledger, tenantId);
    if j < |ledger| then ledger[j := (ledger[j].0, WithIndex(ledger[j].1, key, manifest))]
    else ledger + [(tenantId, WithIndex(Tenant(tenantId, None), key, manifest))]
  }

  function GetIndex(ledger: Ledger, tenantId: string, key: string): Option<seq<string>> {
    var i := Find(ledger, tenantId);
    if i < |ledger| && key in SecretsOf(ledger[i].1) then Some(SecretsOf(ledger[i].1)[key]) else None
  }

  /** The tenant has no record, but its id is the ledger key of somebody else's. */
  predicate Shadowed(ledger: Ledger, tenantId: string) {
    Find(ledger, tenantId) == |ledger| && FindKey(ledger, tenantId) < |ledger|
  }

  lemma FindUnique(ledger: Ledger, tenantId: string, i: nat)
    requires i <= |ledger| && (i < |ledger| ==> ledger[i].1.tenantId == tenantId)
    requires forall j :: 0 <= j < i ==> ledger[j].1.tenantId != tenantId
    ensures Find(ledger, tenantId) == i
  {
  }

  /** An index that was recorded is found again exactly when the tenant is not shadowed. */
  lemma UpdateThenGet(ledger: Ledger, t: string, k: string, manifest: seq<string>)
    ensures GetIndex(UpdateIndex(ledger, t, k, manifest), t, k) == Some(manifest) <==> !Shadowed(ledger, t)
  {
    var after := UpdateIndex(ledger, t, k, manifest);
    FindUnique(after, t, if Shadowed(ledger, t) then |after| else Find(ledger, t));
  }

  /** Recording an index for a tenant that is not shadowed leaves every other index alone, and
      shadows nobody. */
  lemma UpdateOthers(ledger: Ledger, t: string, k: string, manifest: seq<string>, u: string, l: string)
    requires !Shadowed(ledger, t)
    ensures (t, k) != (u, l) ==> GetIndex(UpdateIndex(ledger, t, k, manifest), u, l) == GetIndex(ledger, u, l)
    ensures Shadowed(UpdateIndex(ledger, t, k, manifest), u) <==> Shadowed(ledger, u)
  {
    var after := UpdateIndex(ledger, t, k, manifest);
    var i := Find(ledger, u);
    FindUnique(after, u, if i < |ledger| || u == t then i else |after|);
    if u != t && i == |ledger| {
      var j := FindKey(ledger, u);
      if j < |ledger| {
        assert after[j].0 == u;
      } else {
        forall j | 0 <= j < |after| ensures after[j].0 != u {
          assert j < |ledger| ==> after[j].0 == ledger[j].0;
        }
      }
    }
  }

  // ---- Saving and retrieving ----

  datatype State = State(objects: map<string, Bytes>, ledger: Ledger)

  function Ids(env: Env, t: string, k: string, n: nat): (ids: seq<string>)
    ensures |ids| == n
    ensures forall i :: 0 <= i < n ==> ids[i] == ChunkId(env, t, k, i)
  {
    seq(n, i requires 0 <= i < n => ChunkId(env, t, k, i))
  }

  function Writes(env: Env, objects: map<string, Bytes>, t: string, k: string, chunks: seq<Bytes>): map<string, Bytes> {
    if chunks == [] then objects
    else
      var last := |chunks| - 1;
      Writes(env, objects, t, k, chunks[..last])[ObjectKey(env, t, k, last) := env.wrap(chunks[last])]
  }

  function Save(env: Env, s: State, t: string, k: string, chunks: seq<Bytes>): State {
    State(Writes(env, s.objects, t, k, chunks), UpdateIndex(s.ledger, t, k, Ids(env, t, k, |chunks|)))
  }

  datatype Error = NotFound | MissingChunk | Malformed

  function ReadChunks(env: Env, s: State, t: string, ids: seq<string>): Result<Bytes, Error> {
    if ids == [] then Ok([])
    else
      var last := |ids| - 1;
      var front := ReadChunks(env, s, t, ids[..last]);
      if front.Err? then front
      else if SecureKey(env, t, ids[last]) !in s.objects then Err(MissingChunk)
      else
        var data := env.unwrap(s.objects[SecureKey(env, t, ids[last])]);
        if data.None? then Err(Malformed) else Ok(front.value + data.value)
  }

  function Retrieve(env: Env, s: State, t: string, k: string): Result<Bytes, Error> {
    var manifest := GetIndex(s.ledger, t, k);
    if manifest.None? || manifest.value == [] then Err(NotFound) else ReadChunks(env, s, t, manifest.value)
  }

  // ---- What a retrieval gives ----

  ghost predicate Present(env: Env, s: State, t: string, id: string) { env.tenantHash(t) + "_" + id in s.objects }

  /** There is an object for the id, and it unwraps. */
  ghost predicate Intact(env: Env, s: State, t: string, id: string) {
    Present(env, s, t, id) && env.unwrap(s.objects[env.tenantHash(t) + "_" + id]).Some?
  }

  ghost function Piece(env: Env, s: State, t: string, id: string): Bytes
    requires Intact(env, s, t, id)
  {
    env.unwrap(s.objects[env.tenantHash(t) + "_" + id]).value
  }

  ghost function Pieces(env: Env, s: State, t: string, ids: seq<string>): seq<Bytes>
    requires forall i :: 0 <= i < |ids| ==> Intact(env, s, t, ids[i])
  {
    seq(|ids|, i requires 0 <= i < |ids| => Piece(env, s, t, ids[i]))
  }

  /** The i-th is the first that is not intact. */
  ghost predicate FirstBad(env: Env, s: State, t: string, ids: seq<string>, i: nat) {
    i < |ids| && !Intact(env, s, t, ids[i]) && forall j :: 0 <= j < i ==> Intact(env, s, t, ids[j])
  }

  /** The chunks are read exactly if all are intact, and then give their contents in order; otherwise the first
      that is not decides the error. */
  ghost predicate ReadExactly(env: Env, s: State, t: string, ids: seq<string>, r: Result<Bytes, Error>) {
    if forall i :: 0 <= i < |ids| ==> Intact(env, s, t, ids[i]) then r == Ok(Flatten(Pieces(env, s, t, ids)))
    else exists i: nat :: FirstBad(env, s, t, ids, i)
                     && r == Err(if Present(env, s, t, ids[i]) then Malformed else MissingChunk)
  }

  /** What to find when the n-th chunk is next. */
  lemma ReadNext(env: Env, s: State, t: string, ids: seq<string>, n: nat)
    requires n < |ids|
    ensures var front := ReadChunks(env, s, t, ids[..n]);
            ReadChunks(env, s, t, ids[..n + 1]) ==
              if front.Err? then front
              else if SecureKey(env, t, ids[n]) !in s.objects then Err(MissingChunk)
              else
                var data := env.unwrap(s.objects[SecureKey(env, t, ids[n])]);
                if data.None? then Err(Malformed) else Ok(front.value + data.value)
    ensures ids[..0] == []
  {
    assert ids[..n + 1][..n] == ids[..n];
  }

  lemma ReadNothing(env: Env, s: State, t: string)
    ensures ReadChunks(env, s, t, []) == Ok([]) && Flatten(Pieces(env, s, t, [])) == []
  {
  }

  lemma {:induction false} ReadChunksExact(env: Env, s: State, t: string, ids: seq<string>)
    ensures ReadExactly(env, s, t, ids, ReadChunks(env, s, t, ids))
    decreases |ids|
  {
    hide ReadChunks;
    if ids == [] {
      ReadNothing(env, s, t);
    } else {
      var last := |ids| - 1;
      var front := ids[..last];
      ReadNext(env, s, t, ids, last);
      assert ids[..last + 1] == ids;
      ReadChunksExact(env, s, t, front);
      if forall i :: 0 <= i < |front| ==> Intact(env, s, t, front[i]) {
        forall i | 0 <= i < last ensures Intact(env, s, t, ids[i]) {
          assert front[i] == ids[i];
        }
        if Intact(env, s, t, ids[last]) {
          assert Pieces(env, s, t, ids)[..last] == Pieces(env, s, t, front);
          assert Pieces(env, s, t, ids) == Pieces(env, s, t, front) + [Pieces(env, s, t, ids)[last]];
          FlattenAppend(Pieces(env, s, t, front), Pieces(env, s, t, ids)[last]);
        } else {
          assert FirstBad(env, s, t, ids, last);
        }
      } else {
        var i: nat :| FirstBad(env, s, t, front, i)
                 && ReadChunks(env, s, t, front)
                    == Err(if Present(env, s, t, front[i]) then Malformed else MissingChunk);
        assert front[i] == ids[i];
        forall j | 0 <= j < i ensures Intact(env, s, t, ids[j]) {
          assert front[j] == ids[j];
        }
        assert FirstBad(env, s, t, ids, i);
      }
    }
  }

  /** Not found without a nonempty manifest, else that. */
  ghost predicate RetrievedExactly(env: Env, s: State, t: string, k: string, r: Result<Bytes, Error>) {
    var manifest := GetIndex(s.ledger, t, k);
    if manifest.None? || manifest.value == [] then r == Err(NotFound)
    else ReadExactly(env, s, t, manifest.value, r)
  }

  // ---- The simulated map ----

  type Parts = map<(string, string), seq<Bytes>>

  /** The store holds, for each saved secret of the known tenants and keys, exactly the chunks of its
      latest save under its manifest, and no other secret of theirs. */
  ghost predicate Represents(env: Env, names: set<string>, s: State, parts: Parts) {
    forall t, k :: Known(names, t, k) ==> RepresentsAt(env, s, parts, t, k)
  }

  ghost predicate RepresentsAt(env: Env, s: State, parts: Parts, t: string, k: string) {
    if (t, k) !in parts then GetIndex(s.ledger, t, k) == None
    else
      && GetIndex(s.ledger, t, k) == Some(Ids(env, t, k, |parts[(t, k)]|))
      && forall i :: 0 <= i < |parts[(t, k)]| ==> StoredAt(env, s.objects, t, k, i, parts[(t, k)][i])
  }

  ghost predicate StoredAt(env: Env, objects: map<string, Bytes>, t: string, k: string, i: nat, chunk: Bytes) {
    ObjectKey(env, t, k, i) in objects && objects[ObjectKey(env, t, k, i)] == env.wrap(chunk)
  }

  lemma {:induction false} WritesStore(env: Env, names: set<string>, objects: map<string, Bytes>, t: string, k: string,
                                       chunks: seq<Bytes>, i: nat)
    requires Sound(env, names) && Known(names, t, k) && i < |chunks|
    ensures StoredAt(env, Writes(env, objects, t, k, chunks), t, k, i, chunks[i])
    decreases |chunks|
  {
    var last := |chunks| - 1;
    if i < last {
      WritesStore(env, names, objects, t, k, chunks[..last], i);
      if ObjectKey(env, t, k, i) == ObjectKey(env, t, k, last) {
        ObjectKeyInjective(env, names, t, k, i, t, k, last);
      }
    }
  }

  /** Writing a secret's chunks, however many, touches no chunk of another secret. */
  lemma {:induction false} WritesElsewhere(env: Env, names: set<string>, objects: map<string, Bytes>,
                                           t: string, k: string,
                                           chunks: seq<Bytes>, u: string, l: string, j: nat, chunk: Bytes)
    requires Sound(env, names) && Known(names, t, k) && Known(names, u, l)
    requires (t, k) != (u, l) && StoredAt(env, objects, u, l, j, chunk)
    ensures StoredAt(env, Writes(env, objects, t, k, chunks), u, l, j, chunk)
    decreases |chunks|
  {
    if chunks != [] {
      var last := |chunks| - 1;
      WritesElsewhere(env, names, objects, t, k, chunks[..last], u, l, j, chunk);
      if ObjectKey(env, t, k, last) == ObjectKey(env, u, l, j) {
        ObjectKeyInjective(env, names, t, k, last, u, l, j);
      }
    }
  }

  lemma SaveSimulates(env: Env, names: set<string>, s: State, parts: Parts, t: string, k: string, chunks: seq<Bytes>)
    requires Sound(env, names) && Known(names, t, k) && Represents(env, names, s, parts) && !Shadowed(s.ledger, t)
    ensures Represents(env, names, Save(env, s, t, k, chunks), parts[(t, k) := chunks])
    ensures forall u :: Shadowed(Save(env, s, t, k, chunks).ledger, u) <==> Shadowed(s.ledger, u)
  {
    var after, parts1 := Save(env, s, t, k, chunks), parts[(t, k) := chunks];
    var ids := Ids(env, t, k, |chunks|);
    forall u ensures Shadowed(after.ledger, u) <==> Shadowed(s.ledger, u) {
      UpdateOthers(s.ledger, t, k, ids, u, k);
    }
    forall u, l | Known(names, u, l) ensures RepresentsAt(env, after, parts1, u, l) {
      if (u, l) == (t, k) {
        UpdateThenGet(s.ledger, t, k, ids);
        forall i | 0 <= i < |chunks| ensures StoredAt(env, after.objects, t, k, i, chunks[i]) {
          WritesStore(env, names, s.objects, t, k, chunks, i);
        }
      } else {
        UpdateOthers(s.ledger, t, k, ids, u, l);
        assert RepresentsAt(env, s, parts, u, l);
        if (u, l) in parts {
          forall i | 0 <= i < |parts[(u, l)]| ensures StoredAt(env, after.objects, u, l, i, parts[(u, l)][i]) {
            WritesElsewhere(env, names, s.objects, t, k, chunks, u, l, i, parts[(u, l)][i]);
          }
        }
      }
    }
  }

  lemma {:induction false} ReadBack(env: Env, s: State, t: string, k: string, chunks: seq<Bytes>)
    requires forall b :: env.unwrap(env.wrap(b)) == Some(b)
    requires forall i :: 0 <= i < |chunks| ==> StoredAt(env, s.objects, t, k, i, chunks[i])
    ensures ReadChunks(env, s, t, Ids(env, t, k, |chunks|)) == Ok(Flatten(chunks))
    decreases |chunks|
  {
    if chunks != [] {
      var last := |chunks| - 1;
      var front := chunks[..last];
      ReadBack(env, s, t, k, front);
      assert Ids(env, t, k, |chunks|)[..last] == Ids(env, t, k, last);
      assert chunks == front + [chunks[last]];
      FlattenAppend(front, chunks[last]);
      assert StoredAt(env, s.objects, t, k, last, chunks[last]);
    }
  }

  // ---- Runs ----

  /** One save, with the chunks the chunker made of the payload. */
  datatype SaveCall = SaveCall(tenant: string, key: string, payload: Bytes, chunks: seq<Bytes>)

  ghost predicate WellChunked(c: SaveCall) {
    Flatten(c.chunks) == c.payload && forall i :: 0 <= i < |c.chunks| ==> c.chunks[i] != []
  }

  function Run(env: Env, s: State, calls: seq<SaveCall>): State {
    if calls == [] then s
    else
      var last := calls[|calls| - 1];
      Save(env, Run(env, s, calls[..|calls| - 1]), last.tenant, last.key, last.chunks)
  }

  /** The payload of the last save under the tenant and key. */
  function Latest(calls: seq<SaveCall>, t: string, k: string): Option<Bytes> {
    if calls == [] then None
    else
      var last := calls[|calls| - 1];
      if last.tenant == t && last.key == k then Some(last.payload) else Latest(calls[..|calls| - 1], t, k)
  }

  ghost predicate Tracks(parts: Parts, calls: seq<SaveCall>) {
    forall t, k :: if (t, k) in parts then
        Latest(calls, t, k) == Some(Flatten(parts[(t, k)])) && (parts[(t, k)] == [] <==> Flatten(parts[(t, k)]) == [])
      else Latest(calls, t, k) == None
  }

  lemma {:induction false} RunSimulates(env: Env, names: set<string>, s: State, calls: seq<SaveCall>)
      returns (parts: Parts)
    requires Sound(env, names) && Represents(env, names, s, map[])
    requires forall i :: 0 <= i < |calls| ==>
               Known(names, calls[i].tenant, calls[i].key)
               && WellChunked(calls[i]) && !Shadowed(s.ledger, calls[i].tenant)
    ensures Represents(env, names, Run(env, s, calls), parts) && Tracks(parts, calls)
    ensures forall u :: Shadowed(Run(env, s, calls).ledger, u) <==> Shadowed(s.ledger, u)
    decreases |calls|
  {
    if calls == [] {
      parts := map[];
    } else {
      var n := |calls| - 1;
      var last := calls[n];
      var before := RunSimulates(env, names, s, calls[..n]);
      SaveSimulates(env, names, Run(env, s, calls[..n]), before, last.tenant, last.key, last.chunks);
      parts := before[(last.tenant, last.key) := last.chunks];
      assert WellChunked(last);
    }
  }

  /** The strings a run of saves and a query hash. */
  function Names(calls: seq<SaveCall>, t: string, k: string): set<string> {
    {t, t + ":" + k}
    + (set i | 0 <= i < |calls| :: calls[i].tenant)
    + (set i | 0 <= i < |calls| :: calls[i].tenant + ":" + calls[i].key)
  }

  /** After any run of saves by tenants that are not shadowed in the ledger, a secret reads back as
      the payload last saved under its tenant and key, if that is nonempty, and is not found otherwise. */
  lemma {:induction false} RetrieveLatest(env: Env, s: State, calls: seq<SaveCall>, t: string, k: string)
    requires Sound(env, Names(calls, t, k)) && Represents(env, Names(calls, t, k), s, map[])
    requires forall i :: 0 <= i < |calls| ==> WellChunked(calls[i]) && !Shadowed(s.ledger, calls[i].tenant)
    ensures Retrieve(env, Run(env, s, calls), t, k) ==
              match Latest(calls, t, k)
              case None => Err(NotFound)
              case Some(payload) => if payload == [] then Err(NotFound) else Ok(payload)
  {
    var parts := RunSimulates(env, Names(calls, t, k), s, calls);
    assert Known(Names(calls, t, k), t, k);
    assert RepresentsAt(env, Run(env, s, calls), parts, t, k);
    if (t, k) in parts {
      ReadBack(env, Run(env, s, calls), t, k, parts[(t, k)]);
    }
  }

  // ---- Damage ----

  /** After any such run and the loss of any objects, a secret reads back as the payload last saved exactly
      when no object that its manifest lists is lost, whatever else is; and otherwise not at all. */
  lemma {:induction false} RetrieveAfterLoss(env: Env, s: State, calls: seq<SaveCall>, t: string, k: string,
                                             lost: set<string>)
    requires Sound(env, Names(calls, t, k)) && Represents(env, Names(calls, t, k), s, map[])
    requires forall i :: 0 <= i < |calls| ==> WellChunked(calls[i]) && !Shadowed(s.ledger, calls[i].tenant)
    ensures var before := Run(env, s, calls);
            var after := before.(objects := before.objects - lost);
            Retrieve(env, after, t, k) ==
              match Latest(calls, t, k)
              case None => Err(NotFound)
              case Some(payload) =>
                if payload == [] then Err(NotFound)
                else if Untouched(env, GetIndex(before.ledger, t, k), t, lost) then Ok(payload)
                else Err(MissingChunk)
  {
    hide Names, Run, Represents, Shadowed, WellChunked;
    var before := Run(env, s, calls);
    var after := before.(objects := before.objects - lost);
    RetrieveLatest(env, s, calls, t, k);
    RetrievalUnderLoss(env, before, t, k, lost);
  }

  ghost predicate Untouched(env: Env, manifest: Option<seq<string>>, t: string, lost: set<string>) {
    manifest.Some? ==> forall i :: 0 <= i < |manifest.value| ==> env.tenantHash(t) + "_" + manifest.value[i] !in lost
  }

  /** What could be retrieved still can exactly if nothing it needs is lost. */
  lemma RetrievalUnderLoss(env: Env, s: State, t: string, k: string, lost: set<string>)
    requires Retrieve(env, s, t, k).Ok? || Retrieve(env, s, t, k) == Err(NotFound)
    ensures var after := s.(objects := s.objects - lost);
            Retrieve(env, after, t, k) ==
              if Retrieve(env, s, t, k).Err? || Untouched(env, GetIndex(s.ledger, t, k), t, lost)
              then Retrieve(env, s, t, k)
              else Err(MissingChunk)
  {
    hide ReadChunks, GetIndex;
    var after := s.(objects := s.objects - lost);
    var manifest := GetIndex(s.ledger, t, k);
    if manifest.Some? && manifest.value != [] {
      ReadChunksExact(env, s, t, manifest.value);
      LossAndReading(env, s, t, manifest.value, lost);
    }
  }

  lemma LossAndReading(env: Env, s: State, t: string, ids: seq<string>, lost: set<string>)
    requires ReadChunks(env, s, t, ids).Ok?
    ensures var after := s.(objects := s.objects - lost);
            ReadChunks(env, after, t, ids) ==
              if Untouched(env, Some(ids), t, lost) then ReadChunks(env, s, t, ids) else Err(MissingChunk)
  {
    hide ReadChunks;
    var after := s.(objects := s.objects - lost);
    ReadChunksExact(env, s, t, ids);
    ReadChunksExact(env, after, t, ids);
    forall i | 0 <= i < |ids|
      ensures Intact(env, s, t, ids[i])
      ensures Present(env, after, t, ids[i]) <==> env.tenantHash(t) + "_" + ids[i] !in lost
      ensures Present(env, after, t, ids[i]) ==> Intact(env, after, t, ids[i])
                                                 && Piece(env, after, t, ids[i]) == Piece(env, s, t, ids[i])
    {
    }
    if Untouched(env, Some(ids), t, lost) {
      forall i | 0 <= i < |ids| ensures Intact(env, after, t, ids[i]) {
        assert env.tenantHash(t) + "_" + ids[i] !in lost;
      }
      assert Pieces(env, after, t, ids) == Pieces(env, s, t, ids);
    } else {
      var i :| 0 <= i < |ids| && env.tenantHash(t) + "_" + ids[i] in lost;
      assert !Intact(env, after, t, ids[i]);
    }
  }

  // ---- Hashes that meet the assumptions ----

  function Zeros(n: nat): (z: string)
    ensures |z| == n && forall i :: 0 <= i < n ==> z[i] == '0'
  {
    seq(n, _ => '0')
  }

  /** A stand-in for the hash that keeps short strings apart. */
  function Padding(name: string): (h: string)
    ensures |h| == 32
  {
    if |name| < 32 then name + "1" + Zeros(31 - |name|) else Zeros(32)
  }

  lemma PaddingInjective(a: string, b: string)
    requires |a| <= |b| < 32 && a != b
    ensures Padding(a) != Padding(b)
  {
    var x, y := Padding(a), Padding(b);
    if |a| < |b| {
      assert x[|b|] == Zeros(31 - |a|)[|b| - |a| - 1] == '0';
      assert y[|b|] == '1';
    } else {
      assert x[..|a|] == a && y[..|b|] == b;
    }
  }

  function PlainEnv(): Env { Env(Padding, Padding, b => b, b => Some(b)) }

  /** Any names of fewer than 32 characters have hashes and a codec that are sound for them, and from a
      store with nothing in it the results about runs speak of every run with such names. */
  lemma ShortNamesSound(names: set<string>)
    requires forall s :: s in names ==> |s| < 32
    ensures Sound(PlainEnv(), names) && Represents(PlainEnv(), names, State(map[], []), map[])
    ensures forall u :: !Shadowed([], u)
  {
    forall t, u | t in names && u in names && t != u ensures Padding(t) != Padding(u) {
      if |t| <= |u| { PaddingInjective(t, u); } else { PaddingInjective(u, t); }
    }
  }

  // ---- A shadowed tenant ----

  /** A shadowed tenant loses its secret: the index goes into the other tenant's record, where it
      replaces that tenant's own index for the key. */
  lemma ShadowedTenantLosesSecret(env: Env, s: State, t: string, k: string, chunks: seq<Bytes>)
    requires Shadowed(s.ledger, t)
    ensures var after := Save(env, s, t, k, chunks);
            && Retrieve(env, after, t, k) == Err(NotFound)
            && forall u :: Find(s.ledger, u) == FindKey(s.ledger, t) ==>
                 GetIndex(after.ledger, u, k) == Some(Ids(env, t, k, |chunks|))
  {
    var after := UpdateIndex(s.ledger, t, k, Ids(env, t, k, |chunks|));
    FindUnique(after, t, |after|);
    forall u | Find(s.ledger, u) == FindKey(s.ledger, t)
      ensures GetIndex(after, u, k) == Some(Ids(env, t, k, |chunks|)) {
      FindUnique(after, u, FindKey(s.ledger, t));
    }
  }

  lemma Retrieved(env: Env, s: State, t: string, k: string)
    ensures RetrievedExactly(env, s, t, k, Retrieve(env, s, t, k))
    ensures Retrieve(env, s, t, k).Ok? <==>
              var manifest := GetIndex(s.ledger, t, k);
              && manifest.Some? && manifest.value != []
              && forall i :: 0 <= i < |manifest.value| ==> Intact(env, s, t, manifest.value[i])
  {
    hide ReadChunks, GetIndex;
    var manifest := GetIndex(s.ledger, t, k);
    if manifest.Some? && manifest.value != [] {
      ReadChunksExact(env, s, t, manifest.value);
    }
  }
}
