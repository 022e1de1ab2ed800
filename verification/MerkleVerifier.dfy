/** koot/storage/integrity/merkle.py: the verifier, which climbs a proof, against the root of a tree. */
module MerkleVerifier {
  import opened Bytes
  import opened Merkle
  import opened MerkleRoots
  import opened MerkleProofs

  ghost predicate Accepts(H: HashFunction, encode: Bytes -> string, chunk: Bytes, proof: seq<ProofStep>, root: string) {
    encode(Climb(H, H(chunk), proof)) == root
  }

  /** StreamingVerifier.verify_chunk. */
  method VerifyChunk(H: HashFunction, encode: Bytes -> string, chunk: Bytes, proof: seq<ProofStep>,
                     expectedRoot: string)
      returns (ok: bool)
    ensures ok <==> Accepts(H, encode, chunk, proof, expectedRoot)
  {
    var currentHash := H(chunk);
    var k := 0;
    while k < |proof|
      invariant 0 <= k <= |proof|
      invariant Climb(H, currentHash, proof[k..]) == Climb(H, H(chunk), proof)
    {
      var step := proof[k];
      assert proof[k..][1..] == proof[k + 1..];
      if step.onLeft {
        currentHash := H(step.sibling + currentHash);
      } else {
        currentHash := H(currentHash + step.sibling);
      }
      k := k + 1;
    }
    return encode(currentHash) == expectedRoot;
  }

  /** The verifier against the root of a chunk list, for any string and any proof: it accepts what is
      genuine, and accepting anything else exhibits a collision. */
  lemma VerifierExact(H: HashFunction, encode: Bytes -> string, chunks: seq<Bytes>, top: nat,
                      root: string, c: Bytes, p: seq<ProofStep>)
    requires FixedSize(H) && Injective(encode) && chunks != [] && IsTop(|chunks|, top)
    requires IsRootHash(H, encode, chunks, root)
    ensures Genuine(H, chunks, top, c, p) ==> Accepts(H, encode, c, p, root)
    ensures Accepts(H, encode, c, p, root) ==>
              Genuine(H, chunks, top, c, p) || IsCollision(H, ClimbedCollision(H, chunks, top, c, p))
  {
    hide Genuine, ClimbedCollision;
    var t :| IsTop(|chunks|, t) && root == encode(Node(H, chunks, t, 0));
    TopUnique(|chunks|, t, top);
    ClimbExact(H, chunks, top, c, p);
  }

  /** So it accepts each chunk with its own proof; with a proof of that length only chunks, whatever the
      flags; with a shorter one only strings of the size of a pair of hashes; and with a longer one none
      unless some chunk contains the hash of a string; or else there is the collision. */
  lemma VerifierByLength(H: HashFunction, encode: Bytes -> string, chunks: seq<Bytes>, top: nat,
                         root: string, c: Bytes, p: seq<ProofStep>)
    requires FixedSize(H) && Injective(encode) && chunks != [] && IsTop(|chunks|, top)
    requires IsRootHash(H, encode, chunks, root)
    ensures forall i :: 0 <= i < |chunks| ==>
              Accepts(H, encode, chunks[i], PathFrom(H, chunks, 0, i, top), root)
    ensures Accepts(H, encode, c, p, root) && |p| == top ==>
              (c in chunks && c == Padded(chunks, top, 0)[Index(p)])
              || IsCollision(H, ClimbedCollision(H, chunks, top, c, p))
    ensures Accepts(H, encode, c, p, root) && |p| < top ==>
              |c| == 64 || IsCollision(H, ClimbedCollision(H, chunks, top, c, p))
    ensures Accepts(H, encode, c, p, root) && |p| > top ==>
              (var m := |p| - top - 1; Joined(Climb(H, H(c), p[..m]), p[m]) in chunks)
              || IsCollision(H, ClimbedCollision(H, chunks, top, c, p))
  {
    hide Genuine, ClimbedCollision, Accepts, IsRootHash;
    VerifierExact(H, encode, chunks, top, root, c, p);
    if Genuine(H, chunks, top, c, p) {
      GenuineByLength(H, chunks, top, c, p);
    }
    forall i | 0 <= i < |chunks|
      ensures Accepts(H, encode, chunks[i], PathFrom(H, chunks, 0, i, top), root)
    {
      OwnProofGenuine(H, chunks, i, top);
      VerifierExact(H, encode, chunks, top, root, chunks[i], PathFrom(H, chunks, 0, i, top));
    }
  }

  /** Against the root of no chunks it accepts nothing. */
  lemma EmptyRootAcceptsNothing(H: HashFunction, encode: Bytes -> string, c: Bytes, p: seq<ProofStep>)
    requires FixedSize(H) && Injective(encode) && encode([]) == ""
    ensures !Accepts(H, encode, c, p, "")
  {
    ReachedHash(H, c, p);
    assert |Climb(H, H(c), p)| == 32;
  }
}
