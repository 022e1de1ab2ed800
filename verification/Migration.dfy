/** koot/storage/migration/differ.py: what a sync does to the destination, and what any
    number of aborted syncs followed by a complete one achieve. */
module Migration {
  import opened Bytes
  import opened Merkle
  import opened MerkleRoots

  /** The chunk ids in manifest order, with the hash recorded for each. */
  datatype Manifest = Manifest(rootHash: string, ids: seq<string>, hashes: map<string, Bytes>)

  type Key = (string, string)

  datatype Store = Store(manifests: map<string, Manifest>, chunks: map<Key, Bytes>)

  datatype SyncResult = NotFound | Bypassed | Migrated | Aborted

  predicate Differs(source: Manifest, dest: Manifest, id: string) {
    id !in source.hashes || id !in dest.hashes || dest.hashes[id] != source.hashes[id]
  }

  function DeltaOf(source: Manifest, dest: Manifest, ids: seq<string>): seq<string> {
    if ids == [] then []
    else DeltaOf(source, dest, ids[..|ids| - 1])
         + if Differs(source, dest, ids[|ids| - 1]) then [ids[|ids| - 1]] else []
  }

  /** The chunks a sync sets out to transfer. */
  function ToTransfer(source: Manifest, dest: Option<Manifest>): seq<string> {
    if dest.None? then source.ids else DeltaOf(source, dest.value, source.ids)
  }

  function ManifestOf(s: Store, env: string): Option<Manifest> {
    if env in s.manifests then Some(s.manifests[env]) else None
  }

  /** How many of the chunks can be read before the first that is missing. */
  function Readable(source: Store, env: string, ids: seq<string>): (n: nat)
    ensures n <= |ids|
  {
    if ids == [] || (env, ids[0]) !in source.chunks then 0 else 1 + Readable(source, env, ids[1..])
  }

  /** The destination with the given chunks overwritten by the source's. */
  function Written(source: Store, dest: Store, env: string, ids: seq<string>): Store {
    dest.(chunks := dest.chunks + map k | k in source.chunks && k.0 == env && k.1 in ids :: source.chunks[k])
  }

  function Sync(source: Store, dest: Store, env: string): (Store, SyncResult) {
    if env !in source.manifests then (dest, NotFound)
    else
      var m, d := source.manifests[env], ManifestOf(dest, env);
      if d.Some? && m.rootHash == d.value.rootHash then (dest, Bypassed)
      else
        var ids := ToTransfer(m, d);
        var n := Readable(source, env, ids);
        var dest1 := Written(source, dest, env, ids[..n]);
        if n < |ids| then (dest1, Aborted)
        else (dest1.(manifests := dest1.manifests[env := m]), Migrated)
  }

  /** The delta is exactly the source's chunks the destination lacks or holds with another hash. */
  lemma {:induction false} DeltaExact(source: Manifest, dest: Manifest, ids: seq<string>, id: string)
    ensures id in DeltaOf(source, dest, ids) <==> id in ids && Differs(source, dest, id)
  {
    if ids != [] {
      DeltaExact(source, dest, ids[..|ids| - 1], id);
      assert ids == ids[..|ids| - 1] + [ids[|ids| - 1]];
    }
  }

  /** It keeps the order of the manifest. */
  lemma {:induction false} DeltaInOrder(source: Manifest, dest: Manifest, a: seq<string>, b: seq<string>)
    ensures DeltaOf(source, dest, a + b) == DeltaOf(source, dest, a) + DeltaOf(source, dest, b)
    decreases |b|
  {
    if b == [] {
      assert a + b == a;
    } else {
      var n := |b| - 1;
      DeltaInOrder(source, dest, a, b[..n]);
      assert (a + b)[..|a + b| - 1] == a + b[..n];
    }
  }

  // ---- One sync, exactly ----

  /** A chunk of the source that the destination's manifest lacks or lists with another hash. */
  ghost predicate Needed(source: Store, dest: Store, env: string, id: string)
    requires env in source.manifests
  {
    id in source.manifests[env].ids &&
    (env in dest.manifests ==>
       var m, d := source.manifests[env], dest.manifests[env];
       id !in m.hashes || id !in d.hashes || d.hashes[id] != m.hashes[id])
  }

  ghost predicate Overwritten(source: Store, dest: Store, after: Store, env: string, ids: seq<string>) {
    forall k: Key ::
      if k.0 == env && k.1 in ids then k in source.chunks && k in after.chunks && after.chunks[k] == source.chunks[k]
      else SameAt(after, dest, k)
  }

  /** What a sync answers and does: nothing for an envelope the source lacks or whose roots match; else it
      overwrites the needed chunks up to the first the source lacks, and only if there is none commits the manifest. */
  lemma SyncExact(source: Store, dest: Store, env: string)
    ensures var (after, result) := Sync(source, dest, env);
            && (result == NotFound <==> env !in source.manifests)
            && (result == Bypassed <==>
                  && env in source.manifests && env in dest.manifests
                  && source.manifests[env].rootHash == dest.manifests[env].rootHash)
            && (result == NotFound || result == Bypassed ==> after == dest)
            && (result == Migrated || result == Aborted ==>
                  && env in source.manifests
                  && (result == Migrated <==> forall id :: Needed(source, dest, env, id) ==> (env, id) in source.chunks)
                  && (result == Migrated ==> after.manifests == dest.manifests[env := source.manifests[env]])
                  && (result == Aborted ==> after.manifests == dest.manifests)
                  && exists ids: seq<string>, n: nat {:trigger Transfers(source, dest, env, ids, n)} ::
                       && Transfers(source, dest, env, ids, n)
                       && Overwritten(source, dest, after, env, ids[..n]))
  {
    if env in source.manifests
       && (env in dest.manifests ==> source.manifests[env].rootHash != dest.manifests[env].rootHash)
    {
      var m, d := source.manifests[env], ManifestOf(dest, env);
      var ids := ToTransfer(m, d);
      var n := Readable(source, env, ids);
      forall id ensures id in ids <==> Needed(source, dest, env, id) {
        if d.Some? {
          DeltaExact(m, d.value, m.ids, id);
        }
      }
      ReadablePresent(source, env, ids);
      assert Transfers(source, dest, env, ids, n);
      WrittenOverwrites(source, dest, env, ids[..n]);
      if n < |ids| {
        assert Needed(source, dest, env, ids[n]);
      }
    }
  }

  /** The ids are the needed chunks, and the n-th is the first of them that the source lacks, if any does. */
  ghost predicate Transfers(source: Store, dest: Store, env: string, ids: seq<string>, n: nat)
    requires env in source.manifests
  {
    && n <= |ids|
    && (forall id :: id in ids <==> Needed(source, dest, env, id))
    && (forall i :: 0 <= i < n ==> (env, ids[i]) in source.chunks)
    && (n < |ids| ==> (env, ids[n]) !in source.chunks)
  }

  lemma WrittenOverwrites(source: Store, dest: Store, env: string, ids: seq<string>)
    requires forall i :: 0 <= i < |ids| ==> (env, ids[i]) in source.chunks
    ensures Overwritten(source, dest, Written(source, dest, env, ids), env, ids)
  {
    forall k: Key | k.0 == env && k.1 in ids ensures k in source.chunks {
      var i :| 0 <= i < |ids| && ids[i] == k.1;
      assert k == (env, ids[i]);
    }
  }

  // ---- Consistency ----

  ghost function ChunkList(s: Store, env: string, ids: seq<string>): seq<Bytes>
    requires forall i :: 0 <= i < |ids| ==> (env, ids[i]) in s.chunks
  {
    seq(|ids|, i requires 0 <= i < |ids| => s.chunks[(env, ids[i])])
  }

  /** Every chunk the manifest lists is stored and has the recorded hash; of the root nothing is said. */
  ghost predicate HashesMatch(H: HashFunction, s: Store, env: string) {
    env in s.manifests &&
    var m := s.manifests[env];
    && m.hashes.Keys == (set id | id in m.ids)
    && forall i :: 0 <= i < |m.ids| ==>
         (env, m.ids[i]) in s.chunks && m.hashes[m.ids[i]] == H(s.chunks[(env, m.ids[i])])
  }

  /** And the recorded root is the chunks'. */
  ghost predicate Consistent(H: HashFunction, encode: Bytes -> string, s: Store, env: string) {
    && HashesMatch(H, s, env)
    && IsRootHash(H, encode, ChunkList(s, env, s.manifests[env].ids), s.manifests[env].rootHash)
  }

  /** What one attempt can see of the source: the manifest, and those chunks that can be read now. */
  ghost predicate PartOf(attempt: Store, source: Store, env: string) {
    && ManifestOf(attempt, env) == ManifestOf(source, env)
    && forall k :: k in attempt.chunks && k.0 == env ==> k in source.chunks && source.chunks[k] == attempt.chunks[k]
  }

  ghost predicate SameAt(s: Store, t: Store, k: Key) {
    (k in s.chunks <==> k in t.chunks) && (k in t.chunks ==> s.chunks[k] == t.chunks[k])
  }

  ghost predicate Holds(dest: Store, source: Store, env: string, ids: seq<string>) {
    forall i :: 0 <= i < |ids| ==>
      && (env, ids[i]) in source.chunks && (env, ids[i]) in dest.chunks
      && dest.chunks[(env, ids[i])] == source.chunks[(env, ids[i])]
  }

  /** The destination holds every listed chunk of the source: with the same bytes, or with bytes that
      collide with the source's. */
  ghost predicate HoldsUpTo(H: HashFunction, dest: Store, source: Store, env: string, ids: seq<string>) {
    forall i :: 0 <= i < |ids| ==>
      var k := (env, ids[i]);
      && k in source.chunks && k in dest.chunks
      && (dest.chunks[k] == source.chunks[k] || IsCollision(H, (dest.chunks[k], source.chunks[k])))
  }

  // ---- Aborted attempts ----

  function Retried(attempts: seq<Store>, dest: Store, env: string): Store {
    if attempts == [] then dest
    else Sync(attempts[|attempts| - 1], Retried(attempts[..|attempts| - 1], dest, env), env).0
  }

  ghost predicate AllAborted(attempts: seq<Store>, dest: Store, env: string) {
    forall k :: 0 <= k < |attempts| ==> Sync(attempts[k], Retried(attempts[..k], dest, env), env).1 == Aborted
  }

  /** The readable chunks really are written, and nothing else. */
  lemma {:induction false} ReadablePresent(source: Store, env: string, ids: seq<string>)
    ensures forall i :: 0 <= i < Readable(source, env, ids) ==> (env, ids[i]) in source.chunks
    ensures Readable(source, env, ids) < |ids| ==> (env, ids[Readable(source, env, ids)]) !in source.chunks
    decreases |ids|
  {
    if ids != [] && (env, ids[0]) in source.chunks {
      ReadablePresent(source, env, ids[1..]);
      var n := Readable(source, env, ids);
      forall i | 0 <= i < n ensures (env, ids[i]) in source.chunks {
        assert i > 0 ==> ids[i] == ids[1..][i - 1];
      }
      assert n < |ids| ==> ids[n] == ids[1..][n - 1];
    }
  }

  /** Writing what an attempt could read is writing the source's chunks. */
  lemma SameWrites(attempt: Store, source: Store, dest: Store, env: string, ids: seq<string>)
    requires PartOf(attempt, source, env)
    requires forall i :: 0 <= i < |ids| ==> (env, ids[i]) in attempt.chunks
    ensures Written(attempt, dest, env, ids) == Written(source, dest, env, ids)
  {
    var a := map k | k in attempt.chunks && k.0 == env && k.1 in ids :: attempt.chunks[k];
    var b := map k | k in source.chunks && k.0 == env && k.1 in ids :: source.chunks[k];
    forall k ensures k in a <==> k in b {
      if k in b {
        var i :| 0 <= i < |ids| && ids[i] == k.1;
        assert k == (env, ids[i]);
      }
    }
    assert a == b;
  }

  lemma PrefixMembers(ids: seq<string>, a: nat, c: nat, id: string)
    requires a <= c <= |ids|
    ensures id in ids[..a] ==> id in ids[..c]
  {
    assert ids[..c] == ids[..a] + ids[a..c];
  }

  lemma PrefixesMerge(source: Store, dest: Store, env: string, ids: seq<string>, a: nat, b: nat)
    requires a <= |ids| && b <= |ids|
    ensures Written(source, Written(source, dest, env, ids[..a]), env, ids[..b])
         == Written(source, dest, env, ids[..if a < b then b else a])
  {
    var c := if a < b then b else a;
    forall id: string ensures id in ids[..c] <==> id in ids[..a] || id in ids[..b] {
      PrefixMembers(ids, a, c, id);
      PrefixMembers(ids, b, c, id);
    }
    assert Written(source, Written(source, dest, env, ids[..a]), env, ids[..b]).chunks
        == Written(source, dest, env, ids[..c]).chunks;
  }

  /** The store after a complete transfer of the delta and the manifest. */
  function Completed(source: Store, dest: Store, env: string): Store
    requires env in source.manifests
  {
    var m := source.manifests[env];
    Written(source, dest, env, ToTransfer(m, ManifestOf(dest, env))).(manifests := dest.manifests[env := m])
  }

  ghost predicate RootsDiffer(source: Store, dest: Store, env: string) {
    && env in source.manifests
    && (env in dest.manifests ==> dest.manifests[env].rootHash != source.manifests[env].rootHash)
  }

  /** One attempt, whatever it can read: it starts from the destination plus a prefix of the delta, and
      leaves the destination plus a prefix of the same delta, all of it if it was not aborted. */
  lemma OneAttempt(attempt: Store, source: Store, dest: Store, env: string, n: nat)
    requires RootsDiffer(source, dest, env) && PartOf(attempt, source, env)
    requires n <= |ToTransfer(source.manifests[env], ManifestOf(dest, env))|
    ensures var ids := ToTransfer(source.manifests[env], ManifestOf(dest, env));
            var (after, result) := Sync(attempt, Written(source, dest, env, ids[..n]), env);
            && (result == Aborted ==> exists k :: n <= k <= |ids| && after == Written(source, dest, env, ids[..k]))
            && (result != Aborted ==> result == Migrated && after == Completed(source, dest, env))
  {
    hide Written, Readable, ToTransfer, PartOf;
    var ids := ToTransfer(source.manifests[env], ManifestOf(dest, env));
    var k := AttemptWrites(attempt, source, dest, env, ids, n);
    assert ids[..|ids|] == ids;
  }

  lemma AttemptWrites(attempt: Store, source: Store, dest: Store, env: string, ids: seq<string>, n: nat)
      returns (k: nat)
    requires PartOf(attempt, source, env) && n <= |ids|
    ensures var start := Written(source, dest, env, ids[..n]);
            var r := Readable(attempt, env, ids);
            && ManifestOf(attempt, env) == ManifestOf(source, env)
            && start.manifests == dest.manifests
            && k == (if n < r then r else n)
            && Written(attempt, start, env, ids[..r]) == Written(source, dest, env, ids[..k])
            && Written(source, dest, env, ids[..k]).manifests == dest.manifests
  {
    var start, r := Written(source, dest, env, ids[..n]), Readable(attempt, env, ids);
    k := if n < r then r else n;
    ReadablePresent(attempt, env, ids);
    SameWrites(attempt, source, start, env, ids[..r]);
    PrefixesMerge(source, dest, env, ids, n, r);
    hide Written, Readable;
  }

  /** After any number of aborted attempts the manifests are untouched and a prefix of the first delta
      has been written. */
  lemma {:induction false} AbortedAttempts(attempts: seq<Store>, source: Store, dest: Store, env: string)
      returns (n: nat)
    requires RootsDiffer(source, dest, env) && AllAborted(attempts, dest, env)
    requires forall k :: 0 <= k < |attempts| ==> PartOf(attempts[k], source, env)
    ensures var ids := ToTransfer(source.manifests[env], ManifestOf(dest, env));
            n <= |ids| && Retried(attempts, dest, env) == Written(source, dest, env, ids[..n])
    decreases |attempts|
  {
    var ids := ToTransfer(source.manifests[env], ManifestOf(dest, env));
    if attempts == [] {
      n := 0;
      assert Written(source, dest, env, ids[..0]).chunks == dest.chunks;
    } else {
      var last := |attempts| - 1;
      forall k | 0 <= k < last
        ensures Sync(attempts[..last][k], Retried(attempts[..last][..k], dest, env), env).1 == Aborted
      {
        assert attempts[..last][..k] == attempts[..k];
        assert Sync(attempts[k], Retried(attempts[..k], dest, env), env).1 == Aborted;
      }
      var m := AbortedAttempts(attempts[..last], source, dest, env);
      OneAttempt(attempts[last], source, dest, env, m);
      assert Sync(attempts[last], Retried(attempts[..last], dest, env), env).1 == Aborted;
      n :| m <= n <= |ids| && Retried(attempts, dest, env) == Written(source, dest, env, ids[..n]);
    }
  }

  // ---- A complete sync ----

  /** Aborted attempts and then a complete one: the destination holds every chunk of the source, with
      the source's bytes or bytes that collide with them; its other envelopes and chunks are as they
      were; and a further sync writes nothing. */
  lemma {:induction false} RetriesThenSuccess(H: HashFunction, attempts: seq<Store>, last: Store,
                                              source: Store, dest: Store, env: string)
    requires HashesMatch(H, source, env)
    requires env in dest.manifests ==> HashesMatch(H, dest, env)
    requires forall k :: 0 <= k < |attempts| ==> PartOf(attempts[k], source, env)
    requires PartOf(last, source, env) && AllAborted(attempts, dest, env)
    requires Sync(last, Retried(attempts, dest, env), env).1 == Migrated
    ensures var after := Sync(last, Retried(attempts, dest, env), env).0;
            && HoldsUpTo(H, after, source, env, source.manifests[env].ids)
            && after.manifests == dest.manifests[env := source.manifests[env]]
            && (forall k: Key :: k.0 != env || k.1 !in source.manifests[env].ids ==> SameAt(after, dest, k))
            && forall attempt :: PartOf(attempt, source, env) ==> Sync(attempt, after, env) == (after, Bypassed)
  {
    RootsMustDiffer(attempts, last, source, dest, env);
    var n := AbortedAttempts(attempts, source, dest, env);
    OneAttempt(last, source, dest, env, n);
    CompletedHolds(H, source, dest, env);
    forall attempt | PartOf(attempt, source, env)
      ensures Sync(attempt, Completed(source, dest, env), env).1 == Bypassed
    {
      EqualRootsBypass(attempt, source, Completed(source, dest, env), env);
    }
  }

  lemma EqualRootsBypass(attempt: Store, source: Store, dest: Store, env: string)
    requires PartOf(attempt, source, env) && env in source.manifests && env in dest.manifests
    requires dest.manifests[env].rootHash == source.manifests[env].rootHash
    ensures Sync(attempt, dest, env) == (dest, Bypassed)
  {
    assert ManifestOf(attempt, env) == ManifestOf(source, env);
  }

  lemma {:induction false} RootsMustDiffer(attempts: seq<Store>, last: Store, source: Store, dest: Store, env: string)
    requires env in source.manifests && PartOf(last, source, env) && AllAborted(attempts, dest, env)
    requires forall k :: 0 <= k < |attempts| ==> PartOf(attempts[k], source, env)
    requires Sync(last, Retried(attempts, dest, env), env).1 == Migrated
    ensures RootsDiffer(source, dest, env)
  {
    if !RootsDiffer(source, dest, env) {
      if attempts == [] {
        EqualRootsBypass(last, source, dest, env);
      } else {
        FirstNotAborted(attempts, source, dest, env);
      }
    }
  }

  lemma FirstNotAborted(attempts: seq<Store>, source: Store, dest: Store, env: string)
    requires attempts != [] && PartOf(attempts[0], source, env)
    requires env in source.manifests && !RootsDiffer(source, dest, env)
    ensures !AllAborted(attempts, dest, env)
  {
    EqualRootsBypass(attempts[0], source, dest, env);
    assert attempts[..0] == [];
    assert Sync(attempts[0], Retried(attempts[..0], dest, env), env).1 == Bypassed;
  }

  lemma CompletedHolds(H: HashFunction, source: Store, dest: Store, env: string)
    requires HashesMatch(H, source, env)
    requires env in dest.manifests ==> HashesMatch(H, dest, env)
    ensures var after := Completed(source, dest, env);
            && HoldsUpTo(H, after, source, env, source.manifests[env].ids)
            && after.manifests == dest.manifests[env := source.manifests[env]]
            && forall k: Key :: k.0 != env || k.1 !in source.manifests[env].ids ==> SameAt(after, dest, k)
  {
    var m, d := source.manifests[env], ManifestOf(dest, env);
    forall i | 0 <= i < |m.ids| {
      TransferCovers(H, source, dest, env, m.ids[i]);
    }
    forall id | id in ToTransfer(m, d) ensures id in m.ids {
      if d.Some? {
        DeltaExact(m, d.value, m.ids, id);
      }
    }
  }

  /** A chunk of the source that is not transferred is already there. */
  lemma TransferCovers(H: HashFunction, source: Store, dest: Store, env: string, id: string)
    requires HashesMatch(H, source, env) && id in source.manifests[env].ids
    requires env in dest.manifests ==> HashesMatch(H, dest, env)
    ensures var ids := ToTransfer(source.manifests[env], ManifestOf(dest, env));
            && (env, id) in source.chunks
            && (id !in ids ==>
                  && (env, id) in dest.chunks
                  && (dest.chunks[(env, id)] == source.chunks[(env, id)]
                      || IsCollision(H, (dest.chunks[(env, id)], source.chunks[(env, id)]))))
  {
    var m := source.manifests[env];
    var i :| 0 <= i < |m.ids| && m.ids[i] == id;
    assert (env, m.ids[i]) in source.chunks;
    if env in dest.manifests {
      var d := dest.manifests[env];
      DeltaExact(m, d, m.ids, id);
      if !Differs(m, d, id) {
        assert id in d.hashes.Keys;
        var j :| 0 <= j < |d.ids| && d.ids[j] == id;
        assert (env, d.ids[j]) in dest.chunks;
      }
    }
  }

  // ---- The root shortcut ----

  /** Chunk ids are given by position. */
  ghost predicate Positional(name: nat -> string, m: Manifest) {
    forall i :: 0 <= i < |m.ids| ==> m.ids[i] == name(i)
  }

  /** Different positions have different ids, and only listed chunks of the envelope are stored. */
  ghost predicate NothingUnlisted(name: nat -> string, s: Store, env: string)
    requires env in s.manifests
  {
    && (forall i, j :: i != j ==> name(i) != name(j))
    && (forall k: Key :: k.0 == env && k in s.chunks ==> k.1 in s.manifests[env].ids)
  }

  /** Both stores are consistent for the envelope, and their manifests record the same root. */
  ghost predicate SharedRoot(H: HashFunction, encode: Bytes -> string, source: Store, dest: Store, env: string) {
    && FixedSize(H) && Injective(encode) && encode([]) == ""
    && Consistent(H, encode, source, env) && Consistent(H, encode, dest, env)
    && source.manifests[env].rootHash == dest.manifests[env].rootHash
  }

  ghost function Listed(H: HashFunction, s: Store, env: string): seq<Bytes>
    requires HashesMatch(H, s, env)
  {
    ChunkList(s, env, s.manifests[env].ids)
  }

  lemma SharedRootNodes(H: HashFunction, encode: Bytes -> string, source: Store, dest: Store, env: string)
    requires SharedRoot(H, encode, source, dest, env)
    ensures var a, b := Listed(H, source, env), Listed(H, dest, env);
            && (a == [] <==> b == [])
            && (a != [] ==> Width(|a|, Height(|a|)) == Width(|b|, Height(|b|)) == 1
                            && Node(H, a, Height(|a|), 0) == Node(H, b, Height(|b|), 0))
  {
    hide Node, Height, Width;
    var a, b := Listed(H, source, env), Listed(H, dest, env);
    var root := source.manifests[env].rootHash;
    if a != [] {
      RootHashTop(H, encode, a, root);
      RootSize(H, a);
    }
    if b != [] {
      RootHashTop(H, encode, b, root);
      RootSize(H, b);
    }
  }

  lemma RootSize(H: HashFunction, chunks: seq<Bytes>)
    requires FixedSize(H) && Width(|chunks|, Height(|chunks|)) == 1
    ensures Node(H, chunks, Height(|chunks|), 0) != []
  {
    assert |Node(H, chunks, Height(|chunks|), 0)| == 32;
  }

  /** When the roots match, nothing is written. For a source whose tree is as high as the destination's
      that is right if the destination lists at least as many chunks. If it is lower, all of its chunks
      have the size of a pair of hashes, and it is wrong if the destination's first chunk has not. All
      this up to the collision that is named. */
  lemma ShortcutByHeight(H: HashFunction, encode: Bytes -> string, name: nat -> string,
                         source: Store, dest: Store, env: string)
    requires SharedRoot(H, encode, source, dest, env)
    requires Positional(name, source.manifests[env]) && Positional(name, dest.manifests[env])
    ensures Sync(source, dest, env) == (dest, Bypassed)
    ensures var a, b := Listed(H, source, env), Listed(H, dest, env);
            var right := Holds(dest, source, env, source.manifests[env].ids);
            || IsCollision(H, RootCollision(H, a, b))
            || (&& (Height(|a|) == Height(|b|) && |a| <= |b| ==> right)
                && (Height(|a|) < Height(|b|) ==>
                    (forall i :: 0 <= i < |a| ==> |a[i]| == 64) && (right ==> |b[0]| == 64))
                && (Height(|a|) > Height(|b|) ==> (forall i :: 0 <= i < |b| ==> |b[i]| == 64)))
  {
    hide Node, Height, Width, Padded;
    var a, b := Listed(H, source, env), Listed(H, dest, env);
    SharedRootNodes(H, encode, source, dest, env);
    assert Sync(source, dest, env) == (dest, Bypassed);
    if a != [] {
      var s, t := Height(|a|), Height(|b|);
      if s == t {
        SameHeightRoots(H, a, b);
        if |a| <= |b| && a == b[..|a|] {
          SameChunksHeld(name, source, dest, env);
        }
      } else if s < t {
        UnequalHeights(H, a, s, b, t);
        assert name(0) == source.manifests[env].ids[0] == dest.manifests[env].ids[0];
        assert a[0] == source.chunks[(env, name(0))] && b[0] == dest.chunks[(env, name(0))];
      } else {
        UnequalHeights(H, b, t, a, s);
      }
    }
  }

  lemma SameChunksHeld(name: nat -> string, source: Store, dest: Store, env: string)
    requires env in source.manifests && env in dest.manifests
    requires var m, d := source.manifests[env], dest.manifests[env];
             && Positional(name, m) && Positional(name, d) && |m.ids| <= |d.ids|
             && (forall i :: 0 <= i < |m.ids| ==> (env, m.ids[i]) in source.chunks)
             && (forall i :: 0 <= i < |d.ids| ==> (env, d.ids[i]) in dest.chunks)
             && ChunkList(source, env, m.ids) == ChunkList(dest, env, d.ids)[..|m.ids|]
    ensures Holds(dest, source, env, source.manifests[env].ids)
  {
    var m, d := source.manifests[env], dest.manifests[env];
    forall i | 0 <= i < |m.ids|
      ensures (env, m.ids[i]) in dest.chunks && dest.chunks[(env, m.ids[i])] == source.chunks[(env, m.ids[i])]
    {
      assert m.ids[i] == name(i) == d.ids[i];
      assert ChunkList(source, env, m.ids)[i] == ChunkList(dest, env, d.ids)[i];
    }
  }

  /** A chunk at a position the destination does not list is not there. */
  lemma LongerSourceMissing(name: nat -> string, source: Store, dest: Store, env: string)
    requires env in source.manifests && env in dest.manifests && NothingUnlisted(name, dest, env)
    requires Positional(name, source.manifests[env]) && Positional(name, dest.manifests[env])
    requires |source.manifests[env].ids| > |dest.manifests[env].ids|
    ensures !Holds(dest, source, env, source.manifests[env].ids)
  {
    var m, d := source.manifests[env], dest.manifests[env];
    var n := |d.ids|;
    forall j | 0 <= j < n ensures d.ids[j] != m.ids[n] {
      assert d.ids[j] == name(j) && m.ids[n] == name(n);
    }
    assert (env, m.ids[n]) !in dest.chunks;
  }

  /** So where the first chunk of a longer list is not the size of a pair of hashes, the shortcut is
      right exactly when the trees are equally high and the destination lists at least as many chunks,
      or the named strings collide. */
  lemma ShortcutExact(H: HashFunction, encode: Bytes -> string, name: nat -> string,
                      source: Store, dest: Store, env: string)
    requires SharedRoot(H, encode, source, dest, env)
    requires Positional(name, source.manifests[env]) && Positional(name, dest.manifests[env])
    requires NothingUnlisted(name, dest, env)
    requires |dest.manifests[env].ids| > 1 ==> |Listed(H, dest, env)[0]| != 64
    ensures Sync(source, dest, env) == (dest, Bypassed)
    ensures var a, b := Listed(H, source, env), Listed(H, dest, env);
            || IsCollision(H, RootCollision(H, a, b))
            || (Holds(dest, source, env, source.manifests[env].ids) <==> Height(|a|) == Height(|b|) && |a| <= |b|)
  {
    hide Height, Holds, IsRootHash, RootCollision, IsCollision, Positional, NothingUnlisted;
    var a, b := Listed(H, source, env), Listed(H, dest, env);
    ShortcutByHeight(H, encode, name, source, dest, env);
    if |a| > |b| {
      LongerSourceMissing(name, source, dest, env);
    } else if a != [] {
      HeightMonotone(|a|, |b|);
      HeightOfOne();
    } else {
      assert b == [] by { SharedRootNodes(H, encode, source, dest, env); }
    }
  }

  lemma HeightOfOne()
    ensures Height(0) == Height(1) == 0
  {
  }

  /** Unequal heights do occur: the one chunk of the source is the pair of hashes at the top of the
      destination's tree. */
  lemma ShortcutTakesNodeForChunk(H: HashFunction, encode: Bytes -> string, source: Store, dest: Store, env: string)
    requires Consistent(H, encode, source, env) && Consistent(H, encode, dest, env)
    requires var m, d := source.manifests[env], dest.manifests[env];
             && |d.ids| == 2 && m.ids == [d.ids[0]] && |Listed(H, dest, env)[0]| != 64 && FixedSize(H)
             && Listed(H, source, env)[0] == H(Listed(H, dest, env)[0]) + H(Listed(H, dest, env)[1])
    ensures Sync(source, dest, env) == (dest, Bypassed) && !Holds(dest, source, env, source.manifests[env].ids)
  {
    var m, d := source.manifests[env], dest.manifests[env];
    var a, b := Listed(H, source, env), Listed(H, dest, env);
    assert |a| == 1 && |b| == 2 && Height(1) == 0 && Height(2) == 1;
    RootHashTop(H, encode, a, m.rootHash);
    RootHashTop(H, encode, b, d.rootHash);
    assert Width(2, 0) == 2;
    assert Node(H, b, 1, 0) == H(Node(H, b, 0, 0) + Node(H, b, 0, 1));
    assert m.ids[0] == d.ids[0];
  }

  /** So the shortcut can miss a chunk: a source of even length that repeats its last chunk against a
      destination that holds it once. */
  lemma ShortcutMissesRepeatedChunk(H: HashFunction, encode: Bytes -> string,
                                    source: Store, dest: Store, env: string, id: string)
    requires Consistent(H, encode, source, env) && Consistent(H, encode, dest, env)
    requires var m, d := source.manifests[env], dest.manifests[env];
             && |d.ids| % 2 == 1 && |d.ids| > 1 && m.ids == d.ids + [id] && (env, id) !in dest.chunks
             && ChunkList(source, env, m.ids) == ChunkList(dest, env, d.ids)
                    + [ChunkList(dest, env, d.ids)[|d.ids| - 1]]
    ensures Sync(source, dest, env) == (dest, Bypassed) && !Holds(dest, source, env, source.manifests[env].ids)
  {
    var m, d := source.manifests[env], dest.manifests[env];
    var a, b := ChunkList(source, env, m.ids), ChunkList(dest, env, d.ids);
    var s :| IsTop(|a|, s) && m.rootHash == encode(Node(H, a, s, 0));
    var t :| IsTop(|b|, t) && d.rootHash == encode(Node(H, b, t, 0));
    RepeatedLastChunk(H, b, t);
    TopUnique(|a|, s, t);
    assert m.ids[|d.ids|] == id;
  }
}
