/** Which proofs the verifier of koot/storage/integrity/merkle.py accepts, of any length and with any
    direction flags: it takes both from the proof it is given. */
module MerkleProofs {
  import opened Bytes
  import opened Merkle
  import opened MerkleRoots

  /** The position the direction flags spell, the last of them its highest bit. */
  function Index(p: seq<ProofStep>): (i: nat)
    ensures i < Pow2(|p|)
  {
    if p == [] then 0
    else
      var n := |p| - 1;
      Index(p[..n]) + if p[n].onLeft then Pow2(n) else 0
  }

  /** The path of leaf i in a full tree. */
  function PerfectPath(H: HashFunction, s: seq<Bytes>, l: nat, i: nat): (p: seq<ProofStep>)
    requires |s| == Pow2(l) && i < Pow2(l)
    ensures |p| == l
  {
    if l == 0 then []
    else
      var half := Pow2(l - 1);
      if i < half then PerfectPath(H, s[..half], l - 1, i) + [ProofStep(PerfectRoot(H, s[half..], l - 1), false)]
      else PerfectPath(H, s[half..], l - 1, i - half) + [ProofStep(PerfectRoot(H, s[..half], l - 1), true)]
  }

  lemma IndexStep(p: seq<ProofStep>)
    requires p != []
    ensures var n := |p| - 1;
            Index(p) == Index(p[..n]) + if p[n].onLeft then Pow2(n) else 0
  {
  }

  lemma PerfectPathStep(H: HashFunction, s: seq<Bytes>, l: nat, i: nat)
    requires l > 0 && |s| == Pow2(l) && i < Pow2(l)
    ensures Pow2(l) == 2 * Pow2(l - 1)
    ensures var q, half := PerfectPath(H, s, l, i), Pow2(l - 1);
            && q[l - 1].onLeft == (i >= half)
            && q[l - 1].sibling == PerfectRoot(H, if i < half then s[half..] else s[..half], l - 1)
            && q[..l - 1] == if i < half then PerfectPath(H, s[..half], l - 1, i)
                             else PerfectPath(H, s[half..], l - 1, i - half)
  {
    hide PerfectRoot;
  }

  lemma {:induction false} PerfectPathIndex(H: HashFunction, s: seq<Bytes>, l: nat, i: nat)
    requires |s| == Pow2(l) && i < Pow2(l)
    ensures Index(PerfectPath(H, s, l, i)) == i
  {
    hide PerfectPath, PerfectRoot, Pow2, Index;
    if l > 0 {
      var half := Pow2(l - 1);
      PerfectPathStep(H, s, l, i);
      IndexStep(PerfectPath(H, s, l, i));
      if i < half {
        PerfectPathIndex(H, s[..half], l - 1, i);
      } else {
        PerfectPathIndex(H, s[half..], l - 1, i - half);
      }
    } else {
      NoBits(PerfectPath(H, s, l, i));
    }
  }

  lemma NoBits(p: seq<ProofStep>)
    requires p == []
    ensures Index(p) == 0 && Pow2(0) == 1
  {
  }

  lemma {:induction false} ClimbSplit(H: HashFunction, u: Bytes, p: seq<ProofStep>, m: nat)
    requires m <= |p|
    ensures Climb(H, u, p) == Climb(H, Climb(H, u, p[..m]), p[m..])
    decreases m
  {
    if m == 0 {
      assert p[0..] == p;
    } else {
      ClimbSplit(H, H(Joined(u, p[0])), p[1..], m - 1);
      assert p[..m][1..] == p[1..][..m - 1] && p[1..][m - 1..] == p[m..];
    }
  }

  lemma ClimbLast(H: HashFunction, u: Bytes, p: seq<ProofStep>)
    requires p != []
    ensures Climb(H, u, p) == H(Joined(Climb(H, u, p[..|p| - 1]), p[|p| - 1]))
  {
    var n := |p| - 1;
    ClimbSplit(H, u, p, n);
    assert p[n..] == [p[n]] && p[n..][1..] == [];
  }

  /** The last string hashed on the climb from a chunk. */
  function Reached(H: HashFunction, c: Bytes, p: seq<ProofStep>): Bytes {
    if p == [] then c else Joined(Climb(H, H(c), p[..|p| - 1]), p[|p| - 1])
  }

  lemma ReachedHash(H: HashFunction, c: Bytes, p: seq<ProofStep>)
    ensures Climb(H, H(c), p) == H(Reached(H, c, p))
  {
    if p != [] {
      ClimbLast(H, H(c), p);
    }
  }

  // ---- Full trees ----

  /** The first different strings on the climb and on the way down the tree along its flags. */
  function DescentCollision(H: HashFunction, s: seq<Bytes>, c: Bytes, p: seq<ProofStep>): (Bytes, Bytes)
    requires |s| == Pow2(|p|)
  {
    var a, b := Reached(H, c, p), TopString(H, s, |p|);
    if a != b || p == [] then (a, b)
    else
      var n := |p| - 1;
      DescentCollision(H, if p[n].onLeft then s[Pow2(n)..] else s[..Pow2(n)], c, p[..n])
  }

  ghost predicate IsPathOf(H: HashFunction, s: seq<Bytes>, c: Bytes, p: seq<ProofStep>)
    requires |s| == Pow2(|p|)
  {
    c == s[Index(p)] && p == PerfectPath(H, s, |p|, Index(p))
  }

  lemma PathOfLeaf(H: HashFunction, s: seq<Bytes>, c: Bytes)
    requires |s| == 1
    ensures IsPathOf(H, s, c, []) <==> c == s[0]
  {
  }

  /** One level down: the last step of a path tells the half. */
  lemma PathOfHalf(H: HashFunction, s: seq<Bytes>, c: Bytes, p: seq<ProofStep>)
    requires p != [] && |s| == Pow2(|p|)
    ensures var n := |p| - 1;
            var left, right := s[..Pow2(n)], s[Pow2(n)..];
            IsPathOf(H, s, c, p) <==>
              if p[n].onLeft then IsPathOf(H, right, c, p[..n]) && p[n].sibling == PerfectRoot(H, left, n)
              else IsPathOf(H, left, c, p[..n]) && p[n].sibling == PerfectRoot(H, right, n)
  {
    hide PerfectPath, PerfectRoot, Pow2, Index;
    var n, i := |p| - 1, Index(p);
    var q := PerfectPath(H, s, |p|, i);
    IndexStep(p);
    PerfectPathStep(H, s, |p|, i);
    HalfAt(s, Pow2(n), i);
    SameUpToLast(p, q);
    assert IsPathOf(H, s, c, p) <==> c == s[i] && p[..n] == q[..n] && p[n] == q[n];
    if p[n].onLeft {
      assert IsPathOf(H, s[Pow2(n)..], c, p[..n]) <==> c == s[i] && p[..n] == q[..n];
    } else {
      assert IsPathOf(H, s[..Pow2(n)], c, p[..n]) <==> c == s[i] && p[..n] == q[..n];
    }
  }

  lemma HalfAt(s: seq<Bytes>, half: nat, i: nat)
    requires |s| == 2 * half && i < |s|
    ensures s[i] == if i < half then s[..half][i] else s[half..][i - half]
  {
  }

  lemma SameUpToLast(p: seq<ProofStep>, q: seq<ProofStep>)
    requires p != [] && |p| == |q|
    ensures p == q <==> p[..|p| - 1] == q[..|p| - 1] && p[|p| - 1] == q[|p| - 1]
  {
    var n := |p| - 1;
    assert p == p[..n] + [p[n]] && q == q[..n] + [q[n]];
  }

  lemma SplitAtTop(a: Bytes, b: Bytes, v: Bytes, x: ProofStep)
    requires |a| == |b| == |v| == 32
    ensures Joined(v, x) == a + b <==> if x.onLeft then x.sibling == a && v == b else v == a && x.sibling == b
  {
    var j := Joined(v, x);
    if j == a + b {
      if x.onLeft {
        assert |x.sibling| == 32;
        assert x.sibling == j[..32] && v == j[32..];
      } else {
        assert v == j[..32] && x.sibling == j[32..];
      }
      assert a == (a + b)[..32] && b == (a + b)[32..];
    }
  }

  /** A climb of the height of a full tree reaches its root exactly from the leaf its flags spell and
      along that leaf's path, up to the computed collision. Nothing is asked of the siblings. */
  lemma {:induction false} PerfectClimb(H: HashFunction, s: seq<Bytes>, c: Bytes, p: seq<ProofStep>)
    requires FixedSize(H) && |s| == Pow2(|p|)
    ensures IsPathOf(H, s, c, p) ==> Climb(H, H(c), p) == PerfectRoot(H, s, |p|)
    ensures Climb(H, H(c), p) == PerfectRoot(H, s, |p|) ==>
              IsPathOf(H, s, c, p) || IsCollision(H, DescentCollision(H, s, c, p))
    decreases |p|
  {
    hide IsPathOf, PerfectRoot, Climb;
    ReachedHash(H, c, p);
    RootOfTop(H, s, |p|);
    if p == [] {
      PathOfLeaf(H, s, c);
    } else {
      var n := |p| - 1;
      var left, right := s[..Pow2(n)], s[Pow2(n)..];
      PathOfHalf(H, s, c, p);
      PerfectClimb(H, if p[n].onLeft then right else left, c, p[..n]);
      PerfectRootSize(H, left, n);
      PerfectRootSize(H, right, n);
      ReachedHash(H, c, p[..n]);
      SplitAtTop(PerfectRoot(H, left, n), PerfectRoot(H, right, n), Climb(H, H(c), p[..n]), p[n]);
    }
  }

  // ---- The path a chunk is given ----

  function Ancestor(i: nat, l: nat): nat {
    if l == 0 then i else Ancestor(i / 2, l - 1)
  }

  lemma {:induction false} AncestorParent(i: nat, l: nat)
    ensures Ancestor(i, l + 1) == Ancestor(i, l) / 2
  {
    if l > 0 {
      AncestorParent(i / 2, l - 1);
    }
  }

  /** The position of leaf i among the leaves under its ancestor. */
  function Offset(i: nat, l: nat): (k: nat)
    ensures k < Pow2(l)
  {
    if l == 0 then 0 else Offset(i, l - 1) + if Ancestor(i, l - 1) % 2 == 1 then Pow2(l - 1) else 0
  }

  lemma {:induction false} AncestorOffset(n: nat, i: nat, l: nat)
    requires i < n
    ensures Ancestor(i, l) < Width(n, l) && Ancestor(i, l) * Pow2(l) + Offset(i, l) == i
  {
    if l > 0 {
      AncestorOffset(n, i, l - 1);
      AncestorParent(i, l - 1);
      Halves(Ancestor(i, l), Pow2(l - 1));
    }
  }

  lemma {:induction false} PathExtends(H: HashFunction, chunks: seq<Bytes>, l: nat, i: nat, top: nat)
    requires l <= top && i < Width(|chunks|, l)
    ensures var a := Ancestor(i, top - l);
            && a < Width(|chunks|, top)
            && PathFrom(H, chunks, l, i, top + 1)
               == PathFrom(H, chunks, l, i, top)
                  + [ProofStep(Node(H, chunks, top, SiblingIndex(|chunks|, top, a)), a % 2 == 1)]
    decreases top - l
  {
    hide Node, SiblingIndex;
    if l < top {
      PathExtends(H, chunks, l + 1, i / 2, top);
    } else {
      assert PathFrom(H, chunks, l + 1, i / 2, top + 1) == [];
    }
  }

  /** The leaves under the parent of node a, and its sibling's node. */
  lemma PaddedParent(H: HashFunction, chunks: seq<Bytes>, l: nat, a: nat)
    requires a < Width(|chunks|, l) && a / 2 < Width(|chunks|, l + 1)
    ensures Pow2(l + 1) == 2 * Pow2(l)
    ensures var s := Padded(chunks, l + 1, a / 2);
            var sibling := Node(H, chunks, l, SiblingIndex(|chunks|, l, a));
            && (if a % 2 == 1 then s[Pow2(l)..] else s[..Pow2(l)]) == Padded(chunks, l, a)
            && PerfectRoot(H, if a % 2 == 1 then s[..Pow2(l)] else s[Pow2(l)..], l) == sibling
  {
    hide PerfectRoot, Node, Pow2, Padded, Width;
    NodeIsPerfectRoot(H, chunks, l, SiblingIndex(|chunks|, l, a));
    PaddedHalves(chunks, l, a / 2);
    assert a == 2 * (a / 2) + a % 2;
  }

  lemma NoPath(H: HashFunction, chunks: seq<Bytes>, i: nat)
    requires i < |chunks|
    ensures PathFrom(H, chunks, 0, i, 0) == PerfectPath(H, Padded(chunks, 0, i), 0, 0) == []
  {
  }

  lemma OffsetStep(i: nat, l: nat)
    ensures Offset(i, l + 1) == Offset(i, l) + if Ancestor(i, l) % 2 == 1 then Pow2(l) else 0
  {
  }

  /** Up to any level the path of a chunk is that of its place in the padded tree. */
  lemma {:induction false} OwnPath(H: HashFunction, chunks: seq<Bytes>, i: nat, l: nat)
    requires i < |chunks|
    ensures Ancestor(i, l) < Width(|chunks|, l)
    ensures PathFrom(H, chunks, 0, i, l) == PerfectPath(H, Padded(chunks, l, Ancestor(i, l)), l, Offset(i, l))
  {
    hide PerfectPath, PathFrom, Padded, Pow2, Width, Node, PerfectRoot, SiblingIndex, Offset, Ancestor;
    AncestorOffset(|chunks|, i, l);
    if l == 0 {
      NoPath(H, chunks, i);
      NoOffset(i);
    } else {
      var k := l - 1;
      var a := Ancestor(i, k);
      OwnPath(H, chunks, i, k);
      AncestorParent(i, k);
      OffsetStep(i, k);
      ZeroWidth(|chunks|);
      PathExtends(H, chunks, 0, i, k);
      PaddedParent(H, chunks, k, a);
      PerfectPathStep(H, Padded(chunks, l, a / 2), l, Offset(i, l));
      var q := PerfectPath(H, Padded(chunks, l, a / 2), l, Offset(i, l));
      assert q == q[..k] + [q[k]];
    }
  }

  lemma NoOffset(i: nat)
    ensures Ancestor(i, 0) == i && Offset(i, 0) == 0
  {
  }

  /** The path of chunk i, whole. */
  lemma OwnPathWhole(H: HashFunction, chunks: seq<Bytes>, i: nat, top: nat)
    requires i < |chunks| && Width(|chunks|, top) == 1
    ensures |chunks| <= Pow2(top) && chunks[i] == Padded(chunks, top, 0)[i]
    ensures PathFrom(H, chunks, 0, i, top) == PerfectPath(H, Padded(chunks, top, 0), top, i)
  {
    hide PerfectPath, PathFrom, Padded, Pow2, Width, Offset, Ancestor;
    AncestorOffset(|chunks|, i, top);
    OwnPath(H, chunks, i, top);
    PaddedPrefix(chunks, top);
    assert chunks[i] == Padded(chunks, top, 0)[..|chunks|][i];
  }

  // ---- Proofs of any length ----

  /** The part of a proof that lies inside a tree of the height, counted from the root. */
  function Upper(p: seq<ProofStep>, top: nat): seq<ProofStep> {
    if |p| <= top then p else p[|p| - top..]
  }

  function Lower(p: seq<ProofStep>, top: nat): seq<ProofStep> {
    if |p| <= top then [] else p[..|p| - top]
  }

  /** What a genuine proof shows: that the chunk, or for a proof longer than the tree is high the last
      string hashed before the climb enters the tree, is hashed at the place its flags spell, on the level
      that its length reaches down to, and that its siblings are the nodes beside the way to the root. */
  ghost predicate Genuine(H: HashFunction, chunks: seq<Bytes>, top: nat, c: Bytes, p: seq<ProofStep>)
    requires Width(|chunks|, top) == 1
  {
    var q := Upper(p, top);
    IsPathOf(H, DeepStrings(H, chunks, top, |q|), Reached(H, c, Lower(p, top)), q)
  }

  function ClimbedCollision(H: HashFunction, chunks: seq<Bytes>, top: nat, c: Bytes, p: seq<ProofStep>): (Bytes, Bytes)
    requires Width(|chunks|, top) == 1
  {
    var q := Upper(p, top);
    DescentCollision(H, DeepStrings(H, chunks, top, |q|), Reached(H, c, Lower(p, top)), q)
  }

  /** A climb of any length reaches the root exactly with a genuine proof, up to the computed collision. */
  lemma ClimbExact(H: HashFunction, chunks: seq<Bytes>, top: nat, c: Bytes, p: seq<ProofStep>)
    requires FixedSize(H) && Width(|chunks|, top) == 1
    ensures Genuine(H, chunks, top, c, p) ==> Climb(H, H(c), p) == Node(H, chunks, top, 0)
    ensures Climb(H, H(c), p) == Node(H, chunks, top, 0) ==>
              Genuine(H, chunks, top, c, p) || IsCollision(H, ClimbedCollision(H, chunks, top, c, p))
  {
    hide Climb, IsPathOf, DescentCollision, Node, Padded, Preimages, Pow2, PerfectRoot, Width, IsCollision;
    var q, w := Upper(p, top), Reached(H, c, Lower(p, top));
    NodeIsPerfectRoot(H, chunks, top, 0);
    PreimagesRoot(H, Padded(chunks, top, 0), top, |q|);
    PerfectClimb(H, DeepStrings(H, chunks, top, |q|), w, q);
    ReachedHash(H, c, Lower(p, top));
    ClimbSplit(H, H(c), p, |p| - |q|);
    assert p[0..] == p && p[..0] == [];
  }

  /** A genuine proof as long as the tree is high is a chunk's: the one at the place its flags spell in the
      padded list. A shorter one is that of a pair of hashes, and a longer one needs a chunk that contains
      the hash of a string. */
  lemma GenuineByLength(H: HashFunction, chunks: seq<Bytes>, top: nat, c: Bytes, p: seq<ProofStep>)
    requires FixedSize(H) && Width(|chunks|, top) == 1 && Genuine(H, chunks, top, c, p)
    ensures |p| == top ==> c in chunks && c == Padded(chunks, top, 0)[Index(p)]
                           && p == PerfectPath(H, Padded(chunks, top, 0), top, Index(p))
    ensures |p| < top ==> |c| == 64
    ensures |p| > top ==>
              var m := |p| - top - 1;
              Joined(Climb(H, H(c), p[..m]), p[m]) in chunks
  {
    hide *;
    if |p| < top {
      GenuineShort(H, chunks, top, c, p);
    } else {
      GenuineLong(H, chunks, top, c, p);
      PaddedMember(chunks, top, 0, Index(Upper(p, top)));
      if |p| > top {
        LastReached(H, c, p, top);
      }
    }
  }

  lemma GenuineShort(H: HashFunction, chunks: seq<Bytes>, top: nat, c: Bytes, p: seq<ProofStep>)
    requires FixedSize(H) && Width(|chunks|, top) == 1 && |p| < top && Genuine(H, chunks, top, c, p)
    ensures |c| == 64
  {
    hide Preimages, PerfectPath, Width;
    PreimagesSize(H, Padded(chunks, top, 0), top, |p|);
  }

  lemma GenuineLong(H: HashFunction, chunks: seq<Bytes>, top: nat, c: Bytes, p: seq<ProofStep>)
    requires Width(|chunks|, top) == 1 && |p| >= top && Genuine(H, chunks, top, c, p)
    ensures var q := Upper(p, top);
            && |q| == top && |Padded(chunks, top, 0)| == Pow2(top)
            && Reached(H, c, Lower(p, top)) == Padded(chunks, top, 0)[Index(q)]
            && q == PerfectPath(H, Padded(chunks, top, 0), top, Index(q))
            && (|p| == top ==> q == p && Reached(H, c, Lower(p, top)) == c)
  {
    hide Preimages, PerfectPath, Width, Index, Padded;
    PreimagesOfLeaves(H, Padded(chunks, top, 0), top);
  }

  lemma LastReached(H: HashFunction, c: Bytes, p: seq<ProofStep>, top: nat)
    requires |p| > top
    ensures var m := |p| - top - 1;
            Reached(H, c, Lower(p, top)) == Joined(Climb(H, H(c), p[..m]), p[m])
  {
    hide Climb;
    var low := Lower(p, top);
    assert low[..|low| - 1] == p[..|p| - top - 1];
  }

  /** A chunk with its own path is genuine. */
  lemma OwnProofGenuine(H: HashFunction, chunks: seq<Bytes>, i: nat, top: nat)
    requires i < |chunks| && Width(|chunks|, top) == 1
    ensures Genuine(H, chunks, top, chunks[i], PathFrom(H, chunks, 0, i, top))
  {
    hide PathFrom, Padded, Pow2, PerfectPath, Width, Preimages, Index;
    OwnPathWhole(H, chunks, i, top);
    PerfectPathIndex(H, Padded(chunks, top, 0), top, i);
    PreimagesOfLeaves(H, Padded(chunks, top, 0), top);
  }

  /** Padding brings no chunk of its own. */
  lemma {:induction false} PaddedMember(chunks: seq<Bytes>, l: nat, i: nat, k: nat)
    requires i < Width(|chunks|, l) && k < Pow2(l)
    ensures Padded(chunks, l, i)[k] in chunks
  {
    hide Width;
    if l > 0 {
      var half := Pow2(l - 1);
      PaddedHalves(chunks, l - 1, i);
      if k < half {
        PaddedMember(chunks, l - 1, 2 * i, k);
      } else {
        PaddedMember(chunks, l - 1, if 2 * i + 1 < Width(|chunks|, l - 1) then 2 * i + 1 else 2 * i, k - half);
      }
    } else {
      ZeroWidth(|chunks|);
    }
  }

  lemma ZeroWidth(n: nat)
    ensures Width(n, 0) == n
  {
  }
}
