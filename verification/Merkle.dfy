/** The hash tree of koot/storage/integrity/merkle.py as a mathematical object: what
    node sits where, what a proof path climbs to, and what equal roots imply. */
module Merkle {
  import opened Bytes

  type HashFunction = Bytes -> Bytes

  ghost predicate FixedSize(H: HashFunction) {
    forall b :: |H(b)| == 32
  }

  ghost predicate IsCollision(H: HashFunction, pair: (Bytes, Bytes)) {
    pair.0 != pair.1 && H(pair.0) == H(pair.1)
  }

  // ---- Shape ----

  /** The number of nodes on level l above n leaves. */
  function Width(n: nat, l: nat): nat {
    if l == 0 then n else (Width(n, l - 1) + 1) / 2
  }

  /** Width(n, l) is n / 2^l rounded up. */
  lemma {:induction false} WidthIsCeiling(n: nat, l: nat)
    ensures IsCeiling(Width(n, l), n, Pow2(l))
  {
    if l > 0 {
      WidthIsCeiling(n, l - 1);
      CeilingStep(Width(n, l - 1), n, Pow2(l - 1));
    } else {
      assert IsCeiling(n, n, 1);
    }
  }

  /** w == n / q, rounded up. */
  ghost predicate IsCeiling(w: nat, n: nat, q: nat) {
    (w - 1) * q < n <= w * q || n == w == 0
  }

  lemma {:induction false} CeilingStep(w: nat, n: nat, q: nat)
    requires IsCeiling(w, n, q)
    ensures IsCeiling((w + 1) / 2, n, 2 * q)
  {
    var v := (w + 1) / 2;
    assert v * (2 * q) == (2 * v) * q && (v - 1) * (2 * q) == (2 * v - 2) * q;
    assert 2 * v == w ==> (2 * v - 2) * q == (w - 1) * q - q;
    assert 2 * v == w + 1 ==> (2 * v) * q == w * q + q;
  }

  /** A level is a single node or none exactly when 2^l leaves would have been enough. */
  lemma SingleNodeLevel(n: nat, l: nat)
    ensures Width(n, l) <= 1 <==> n <= Pow2(l)
    ensures n > 0 ==> Width(n, l) > 0
  {
    hide Width, IsCeiling;
    WidthIsCeiling(n, l);
    CeilingOne(Width(n, l), n, Pow2(l));
  }

  lemma CeilingOne(w: nat, n: nat, q: nat)
    requires IsCeiling(w, n, q) && q >= 1
    ensures (w <= 1 <==> n <= q) && (n > 0 ==> w > 0)
  {
    if w >= 2 {
      assert (w - 1) * q >= 1 * q;
    } else if w == 1 {
      assert 0 * q == 0 && 1 * q == q;
    } else {
      assert 0 * q == 0;
    }
  }

  ghost predicate IsTop(n: nat, top: nat) {
    Width(n, top) == 1 && forall l :: 0 <= l < top ==> Width(n, l) > 1
  }

  /** The height is the least l with 2^l >= n. */
  lemma TopIsLeast(n: nat, top: nat)
    requires n > 0
    ensures IsTop(n, top) <==> n <= Pow2(top) && forall l :: 0 <= l < top ==> Pow2(l) < n
  {
    forall l: nat ensures Width(n, l) <= 1 <==> n <= Pow2(l) {
      SingleNodeLevel(n, l);
    }
    SingleNodeLevel(n, top);
    if IsTop(n, top) {
      forall l | 0 <= l < top ensures Pow2(l) < n {
        assert Width(n, l) > 1;
      }
    } else if n <= Pow2(top) {
      var l :| 0 <= l < top && Width(n, l) <= 1;
      assert n <= Pow2(l);
    }
  }

  // ---- Nodes ----

  /** Node i of level l: the hash of its two children, the left one twice if it has no right one. */
  function Node(H: HashFunction, chunks: seq<Bytes>, l: nat, i: nat): Bytes
    requires i < Width(|chunks|, l)
  {
    if l == 0 then H(chunks[i])
    else
      var left := Node(H, chunks, l - 1, 2 * i);
      var right := if 2 * i + 1 < Width(|chunks|, l - 1) then Node(H, chunks, l - 1, 2 * i + 1) else left;
      H(left + right)
  }

  // ---- Proof paths ----

  datatype ProofStep = ProofStep(sibling: Bytes, onLeft: bool)

  function SiblingIndex(n: nat, l: nat, i: nat): (s: nat)
    requires i < Width(n, l)
    ensures s < Width(n, l)
  {
    if i % 2 == 1 then i - 1 else if i + 1 < Width(n, l) then i + 1 else i
  }

  /** The path from node i of level l up to level top. */
  function PathFrom(H: HashFunction, chunks: seq<Bytes>, l: nat, i: nat, top: nat): (proof: seq<ProofStep>)
    requires l <= top && i < Width(|chunks|, l)
    ensures |proof| == top - l
    decreases top - l
  {
    if l == top then []
    else [ProofStep(Node(H, chunks, l, SiblingIndex(|chunks|, l, i)), i % 2 == 1)]
         + PathFrom(H, chunks, l + 1, i / 2, top)
  }

  /** What the parent is the hash of. */
  function Joined(current: Bytes, step: ProofStep): Bytes {
    if step.onLeft then step.sibling + current else current + step.sibling
  }

  function Climb(H: HashFunction, current: Bytes, proof: seq<ProofStep>): Bytes
    decreases |proof|
  {
    if proof == [] then current else Climb(H, H(Joined(current, proof[0])), proof[1..])
  }

  /** Completeness: climbing a node's own path ends at the root. */
  lemma {:induction false} ClimbReachesRoot(H: HashFunction, chunks: seq<Bytes>, l: nat, i: nat, top: nat)
    requires l <= top && i < Width(|chunks|, l) && Width(|chunks|, top) == 1
    ensures Climb(H, Node(H, chunks, l, i), PathFrom(H, chunks, l, i, top)) == Node(H, chunks, top, 0)
    decreases top - l
  {
    if l < top {
      var proof := PathFrom(H, chunks, l, i, top);
      assert proof[1..] == PathFrom(H, chunks, l + 1, i / 2, top);
      ParentOfPath(H, chunks, l, i);
      ClimbReachesRoot(H, chunks, l + 1, i / 2, top);
    }
  }

  lemma ParentOfPath(H: HashFunction, chunks: seq<Bytes>, l: nat, i: nat)
    requires i < Width(|chunks|, l)
    ensures var step := ProofStep(Node(H, chunks, l, SiblingIndex(|chunks|, l, i)), i % 2 == 1);
            Node(H, chunks, l + 1, i / 2) == H(Joined(Node(H, chunks, l, i), step))
  {
    assert i == 2 * (i / 2) + i % 2;
  }

  // ---- Binding of proofs ----

  ghost predicate SameShape(p: seq<ProofStep>, q: seq<ProofStep>) {
    |p| == |q| && forall k :: 0 <= k < |p| ==> p[k].onLeft == q[k].onLeft
  }

  /** The first pair of different strings with equal hashes met on two climbs. */
  function ClimbCollision(H: HashFunction, u: Bytes, p: seq<ProofStep>, v: Bytes, q: seq<ProofStep>): (Bytes, Bytes)
    requires |p| == |q|
    decreases |p|
  {
    if p == [] then (u, v)
    else
      var a, b := Joined(u, p[0]), Joined(v, q[0]);
      if a != b && H(a) == H(b) then (a, b) else ClimbCollision(H, H(a), p[1..], H(b), q[1..])
  }

  /** Two climbs of one shape that meet were the same climb, or give a collision. Nothing
      is asked of the siblings in the proofs, which may have any length. */
  lemma {:induction false} ClimbBinding(H: HashFunction, u: Bytes, p: seq<ProofStep>, v: Bytes, q: seq<ProofStep>)
    requires FixedSize(H) && |u| == |v| && SameShape(p, q)
    requires Climb(H, u, p) == Climb(H, v, q)
    ensures (u == v && p == q) || IsCollision(H, ClimbCollision(H, u, p, v, q))
    decreases |p|
  {
    if p != [] {
      var a, b := Joined(u, p[0]), Joined(v, q[0]);
      if a != b && H(a) == H(b) {
      } else {
        ClimbBinding(H, H(a), p[1..], H(b), q[1..]);
        if a == b {
          JoinedInjective(u, p[0], v, q[0]);
          assert p == [p[0]] + p[1..] && q == [q[0]] + q[1..];
        }
      }
    }
  }

  lemma JoinedInjective(u: Bytes, s: ProofStep, v: Bytes, t: ProofStep)
    requires |u| == |v| && s.onLeft == t.onLeft && Joined(u, s) == Joined(v, t)
    ensures u == v && s == t
  {
    var a, b := Joined(u, s), Joined(v, t);
    if s.onLeft {
      assert s.sibling == a[..|a| - |u|] && u == a[|a| - |u|..];
      assert t.sibling == b[..|b| - |v|] && v == b[|b| - |v|..];
    } else {
      assert u == a[..|u|] && s.sibling == a[|u|..];
      assert v == b[..|v|] && t.sibling == b[|v|..];
    }
  }

  /** Strings with colliding hashes, from a chunk and proof that were accepted in place of others. */
  function ProofCollision(H: HashFunction, c: Bytes, p: seq<ProofStep>, d: Bytes, q: seq<ProofStep>): (Bytes, Bytes)
    requires |p| == |q|
  {
    if c != d && H(c) == H(d) then (c, d) else ClimbCollision(H, H(c), p, H(d), q)
  }

  /** Soundness: a chunk that climbs to the root along a path of the same shape as the path
      of chunk i is chunk i, and the path is the path of chunk i, unless there is a collision. */
  lemma {:induction false} ProofBinding(H: HashFunction, chunks: seq<Bytes>, i: nat, top: nat,
                                        c: Bytes, p: seq<ProofStep>)
    requires FixedSize(H) && i < |chunks| && Width(|chunks|, top) == 1
    requires SameShape(p, PathFrom(H, chunks, 0, i, top))
    requires Climb(H, H(c), p) == Node(H, chunks, top, 0)
    ensures (c == chunks[i] && p == PathFrom(H, chunks, 0, i, top))
         || IsCollision(H, ProofCollision(H, c, p, chunks[i], PathFrom(H, chunks, 0, i, top)))
  {
    var q := PathFrom(H, chunks, 0, i, top);
    ClimbReachesRoot(H, chunks, 0, i, top);
    ClimbBinding(H, H(c), p, H(chunks[i]), q);
  }

  // ---- What equal roots imply ----

  /** The chunks under node i of level l, with every missing subtree replaced by a copy of
      its left neighbour. */
  function Padded(chunks: seq<Bytes>, l: nat, i: nat): (s: seq<Bytes>)
    requires i < Width(|chunks|, l)
    ensures |s| == Pow2(l)
  {
    if l == 0 then [chunks[i]]
    else
      var left := Padded(chunks, l - 1, 2 * i);
      left + (if 2 * i + 1 < Width(|chunks|, l - 1) then Padded(chunks, l - 1, 2 * i + 1) else left)
  }

  /** The root of a full binary tree over exactly 2^l chunks. */
  function PerfectRoot(H: HashFunction, s: seq<Bytes>, l: nat): Bytes
    requires |s| == Pow2(l)
  {
    if l == 0 then H(s[0])
    else H(PerfectRoot(H, s[..Pow2(l - 1)], l - 1) + PerfectRoot(H, s[Pow2(l - 1)..], l - 1))
  }

  lemma PaddedHalves(chunks: seq<Bytes>, l: nat, b: nat)
    requires b < Width(|chunks|, l + 1)
    ensures 2 * b < Width(|chunks|, l) && Pow2(l + 1) == 2 * Pow2(l)
    ensures var s := Padded(chunks, l + 1, b);
            && s[..Pow2(l)] == Padded(chunks, l, 2 * b)
            && s[Pow2(l)..] == Padded(chunks, l, if 2 * b + 1 < Width(|chunks|, l) then 2 * b + 1 else 2 * b)
  {
  }

  lemma RootOfHalves(H: HashFunction, s: seq<Bytes>, l: nat)
    requires |s| == Pow2(l + 1)
    ensures |s| == 2 * Pow2(l)
    ensures PerfectRoot(H, s, l + 1) == H(PerfectRoot(H, s[..Pow2(l)], l) + PerfectRoot(H, s[Pow2(l)..], l))
  {
  }

  lemma LeafRoot(H: HashFunction, chunks: seq<Bytes>, i: nat)
    requires i < |chunks|
    ensures i < Width(|chunks|, 0) && Node(H, chunks, 0, i) == PerfectRoot(H, Padded(chunks, 0, i), 0)
  {
  }

  lemma {:induction false} NodeIsPerfectRoot(H: HashFunction, chunks: seq<Bytes>, l: nat, i: nat)
    requires i < Width(|chunks|, l)
    ensures Node(H, chunks, l, i) == PerfectRoot(H, Padded(chunks, l, i), l)
  {
    hide Node, PerfectRoot, Padded, Pow2;
    if l == 0 {
      LeafRoot(H, chunks, i);
    } else {
      NodeChildren(H, chunks, l, i);
      PaddedHalves(chunks, l - 1, i);
      RootOfHalves(H, Padded(chunks, l, i), l - 1);
      NodeIsPerfectRoot(H, chunks, l - 1, 2 * i);
      if 2 * i + 1 < Width(|chunks|, l - 1) {
        NodeIsPerfectRoot(H, chunks, l - 1, 2 * i + 1);
      }
    }
  }

  function PerfectCollision(H: HashFunction, s: seq<Bytes>, t: seq<Bytes>, l: nat): (Bytes, Bytes)
    requires |s| == |t| == Pow2(l)
  {
    if l == 0 then (s[0], t[0])
    else
      var half := Pow2(l - 1);
      var a := PerfectRoot(H, s[..half], l - 1) + PerfectRoot(H, s[half..], l - 1);
      var b := PerfectRoot(H, t[..half], l - 1) + PerfectRoot(H, t[half..], l - 1);
      if a != b then (a, b)
      else if s[..half] != t[..half] then PerfectCollision(H, s[..half], t[..half], l - 1)
      else PerfectCollision(H, s[half..], t[half..], l - 1)
  }

  lemma PerfectRootSize(H: HashFunction, s: seq<Bytes>, l: nat)
    requires FixedSize(H) && |s| == Pow2(l)
    ensures |PerfectRoot(H, s, l)| == 32
  {
  }

  /** The two strings hashed at the top; they are equal only if the roots of both halves are. */
  lemma TopStrings(H: HashFunction, s: seq<Bytes>, t: seq<Bytes>, l: nat)
    requires FixedSize(H) && l > 0 && |s| == |t| == Pow2(l) && PerfectRoot(H, s, l) == PerfectRoot(H, t, l)
    ensures var half := Pow2(l - 1);
            var s0, s1, t0, t1 := s[..half], s[half..], t[..half], t[half..];
            || IsCollision(H, PerfectCollision(H, s, t, l))
            || (&& PerfectRoot(H, s0, l - 1) == PerfectRoot(H, t0, l - 1)
                && PerfectRoot(H, s1, l - 1) == PerfectRoot(H, t1, l - 1)
                && PerfectCollision(H, s, t, l) ==
                     if s0 != t0 then PerfectCollision(H, s0, t0, l - 1) else PerfectCollision(H, s1, t1, l - 1))
  {
    var half := Pow2(l - 1);
    var s0, s1, t0, t1 := s[..half], s[half..], t[..half], t[half..];
    PerfectRootSize(H, s0, l - 1);
    PerfectRootSize(H, t0, l - 1);
    var a0, a1 := PerfectRoot(H, s0, l - 1), PerfectRoot(H, s1, l - 1);
    var b0, b1 := PerfectRoot(H, t0, l - 1), PerfectRoot(H, t1, l - 1);
    if a0 + a1 == b0 + b1 {
      SameLengthSplit(a0, a1, b0, b1);
    }
  }

  lemma SingleChunkCollision(H: HashFunction, s: seq<Bytes>, t: seq<Bytes>)
    requires |s| == |t| == Pow2(0) && s != t && PerfectRoot(H, s, 0) == PerfectRoot(H, t, 0)
    ensures IsCollision(H, PerfectCollision(H, s, t, 0))
  {
    assert s == [s[0]] && t == [t[0]];
  }

  lemma HalfSize(l: nat)
    requires l > 0
    ensures Pow2(l) == Pow2(l - 1) + Pow2(l - 1)
  {
  }

  lemma {:induction false} PerfectRootBinding(H: HashFunction, s: seq<Bytes>, t: seq<Bytes>, l: nat)
    requires FixedSize(H) && |s| == |t| == Pow2(l) && s != t
    requires PerfectRoot(H, s, l) == PerfectRoot(H, t, l)
    ensures IsCollision(H, PerfectCollision(H, s, t, l))
  {
    hide *;
    if l == 0 {
      SingleChunkCollision(H, s, t);
    } else {
      HalfSize(l);
      var half := Pow2(l - 1);
      assert s == s[..half] + s[half..] && t == t[..half] + t[half..];
      TopStrings(H, s, t, l);
      if IsCollision(H, PerfectCollision(H, s, t, l)) {
      } else if s[..half] != t[..half] {
        PerfectRootBinding(H, s[..half], t[..half], l - 1);
      } else {
        PerfectRootBinding(H, s[half..], t[half..], l - 1);
      }
    }
  }

  /** Trees of one height have the same root exactly when their padded chunk lists are the
      same, up to a collision that can be computed. */
  lemma {:induction false} EqualRoots(H: HashFunction, c: seq<Bytes>, d: seq<Bytes>, top: nat)
    requires FixedSize(H) && Width(|c|, top) == 1 && Width(|d|, top) == 1
    ensures Padded(c, top, 0) == Padded(d, top, 0) ==> Node(H, c, top, 0) == Node(H, d, top, 0)
    ensures Node(H, c, top, 0) == Node(H, d, top, 0) ==>
              Padded(c, top, 0) == Padded(d, top, 0)
              || IsCollision(H, PerfectCollision(H, Padded(c, top, 0), Padded(d, top, 0), top))
  {
    NodeIsPerfectRoot(H, c, top, 0);
    NodeIsPerfectRoot(H, d, top, 0);
    if Node(H, c, top, 0) == Node(H, d, top, 0) && Padded(c, top, 0) != Padded(d, top, 0) {
      PerfectRootBinding(H, Padded(c, top, 0), Padded(d, top, 0), top);
    }
  }

  /** Padding keeps every chunk in its place. */
  lemma {:induction false} PaddedKeeps(chunks: seq<Bytes>, l: nat, i: nat, k: nat)
    requires i < Width(|chunks|, l) && k < Pow2(l) && i * Pow2(l) + k < |chunks|
    ensures Padded(chunks, l, i)[k] == chunks[i * Pow2(l) + k]
  {
    if l > 0 {
      var half := Pow2(l - 1);
      Halves(i, half);
      if k < half {
        PaddedKeeps(chunks, l - 1, 2 * i, k);
      } else {
        WidthIsCeiling(|chunks|, l - 1);
        WideEnough(Width(|chunks|, l - 1), 2 * i + 1, half, |chunks|);
        PaddedKeeps(chunks, l - 1, 2 * i + 1, k - half);
      }
    }
  }

  lemma Halves(i: nat, half: nat)
    ensures i * (2 * half) == (2 * i) * half && (2 * i + 1) * half == (2 * i) * half + half
  {
  }

  lemma WideEnough(w: nat, j: nat, q: nat, n: nat)
    requires n <= w * q && j * q < n
    ensures j < w
  {
    assert w <= j ==> w * q <= j * q;
  }

  lemma {:induction false} PaddedPrefix(chunks: seq<Bytes>, top: nat)
    requires Width(|chunks|, top) == 1
    ensures |chunks| <= Pow2(top) && Padded(chunks, top, 0)[..|chunks|] == chunks
  {
    SingleNodeLevel(|chunks|, top);
    forall k | 0 <= k < |chunks| ensures Padded(chunks, top, 0)[k] == chunks[k] {
      PaddedKeeps(chunks, top, 0, k);
    }
  }

  /** Chunk lists of one length with the same root are equal, or give a collision. */
  lemma {:induction false} EqualLengthBinding(H: HashFunction, c: seq<Bytes>, d: seq<Bytes>, top: nat)
    requires FixedSize(H) && |c| == |d| && Width(|c|, top) == 1
    requires Node(H, c, top, 0) == Node(H, d, top, 0)
    ensures c == d || IsCollision(H, PerfectCollision(H, Padded(c, top, 0), Padded(d, top, 0), top))
  {
    EqualRoots(H, c, d, top);
    PaddedPrefix(c, top);
    PaddedPrefix(d, top);
  }

  /** Without equal lengths there is no such promise: repeating the last chunk of a list of odd
      length above one changes neither the height nor the root. */
  lemma RepeatedLastChunk(H: HashFunction, c: seq<Bytes>, top: nat)
    requires |c| % 2 == 1 && |c| > 1 && IsTop(|c|, top)
    ensures IsTop(|c| + 1, top)
    ensures Node(H, c + [c[|c| - 1]], top, 0) == Node(H, c, top, 0)
  {
    var n, m := |c|, |c| + 1;
    assert Width(n, 0) > 1;
    forall l | 1 <= l <= top ensures Width(m, l) == Width(n, l) {
      RepeatedWidth(n, l);
    }
    forall l | 0 <= l < top ensures Width(m, l) > 1 {
      assert Width(n, l) > 1;
    }
    RepeatedNodes(H, c, top, 0);
  }

  lemma {:induction false} RepeatedWidth(n: nat, l: nat)
    requires n % 2 == 1 && l >= 1
    ensures Width(n + 1, l) == Width(n, l)
  {
    if l > 1 {
      RepeatedWidth(n, l - 1);
    } else {
      assert Width(n, 0) == n && Width(n + 1, 0) == n + 1;
    }
  }

  lemma {:induction false} RepeatedNodes(H: HashFunction, c: seq<Bytes>, l: nat, i: nat)
    requires |c| % 2 == 1 && l >= 1 && i < Width(|c|, l) == Width(|c| + 1, l)
    ensures Node(H, c + [c[|c| - 1]], l, i) == Node(H, c, l, i)
  {
    hide *;
    if l == 1 {
      RepeatedFirstLevel(H, c, i);
    } else {
      var d := c + [c[|c| - 1]];
      RepeatedWidth(|c|, l - 1);
      NodeChildren(H, c, l, i);
      NodeChildren(H, d, l, i);
      RepeatedNodes(H, c, l - 1, 2 * i);
      if 2 * i + 1 < Width(|c|, l - 1) {
        RepeatedNodes(H, c, l - 1, 2 * i + 1);
      }
    }
  }

  lemma NodeChildren(H: HashFunction, chunks: seq<Bytes>, l: nat, i: nat)
    requires l > 0 && i < Width(|chunks|, l)
    ensures 2 * i < Width(|chunks|, l - 1)
    ensures var left := Node(H, chunks, l - 1, 2 * i);
            var right := if 2 * i + 1 < Width(|chunks|, l - 1) then Node(H, chunks, l - 1, 2 * i + 1) else left;
            Node(H, chunks, l, i) == H(left + right)
  {
  }

  lemma RepeatedFirstLevel(H: HashFunction, c: seq<Bytes>, i: nat)
    requires |c| % 2 == 1 && i < Width(|c|, 1) == Width(|c| + 1, 1)
    ensures Node(H, c + [c[|c| - 1]], 1, i) == Node(H, c, 1, i)
  {
    var d := c + [c[|c| - 1]];
    assert Width(|c|, 0) == |c| && Width(|d|, 0) == |d|;
    assert Node(H, d, 0, 2 * i) == Node(H, c, 0, 2 * i);
    if 2 * i + 1 < |c| {
      assert Node(H, d, 0, 2 * i + 1) == Node(H, c, 0, 2 * i + 1);
    } else {
      assert Node(H, d, 0, 2 * i + 1) == Node(H, c, 0, 2 * i);
    }
  }
}
