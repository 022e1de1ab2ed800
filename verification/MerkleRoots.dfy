/** What equal roots imply for chunk lists of any two lengths: the tree of koot/storage/integrity/merkle.py
    hashes chunks and pairs of hashes alike, so a shallow tree can have the root of a deep one. */
module MerkleRoots {
  import opened Bytes
  import opened Merkle

  /** The number of levels above n leaves. */
  function Height(n: nat): nat {
    if n <= 1 then 0 else 1 + Height((n + 1) / 2)
  }

  lemma {:induction false} HeightIsTop(n: nat)
    requires n > 0
    ensures IsTop(n, Height(n))
  {
    if n > 1 {
      var h := Height((n + 1) / 2);
      HeightIsTop((n + 1) / 2);
      WidthShift(n, h);
      forall l | 0 <= l < h + 1 ensures Width(n, l) > 1 {
        if l > 0 {
          WidthShift(n, l - 1);
        }
      }
    }
  }

  lemma {:induction false} WidthShift(n: nat, l: nat)
    ensures Width(n, l + 1) == Width((n + 1) / 2, l)
  {
    if l > 0 {
      WidthShift(n, l - 1);
    }
  }

  lemma HeightMonotone(m: nat, n: nat)
    requires 0 < m <= n
    ensures Height(m) <= Height(n)
  {
    HeightIsTop(m);
    HeightIsTop(n);
    TopIsLeast(m, Height(m));
    TopIsLeast(n, Height(n));
  }

  // ---- The strings hashed on one level ----

  /** What the root of a full tree is the hash of. */
  function TopString(H: HashFunction, s: seq<Bytes>, l: nat): Bytes
    requires |s| == Pow2(l)
  {
    if l == 0 then s[0]
    else PerfectRoot(H, s[..Pow2(l - 1)], l - 1) + PerfectRoot(H, s[Pow2(l - 1)..], l - 1)
  }

  /** What the 2^k nodes k levels below the root are the hashes of. */
  function Preimages(H: HashFunction, s: seq<Bytes>, l: nat, k: nat): (r: seq<Bytes>)
    requires |s| == Pow2(l) && k <= l
    ensures |r| == Pow2(k)
    decreases k
  {
    if k == 0 then [TopString(H, s, l)]
    else Preimages(H, s[..Pow2(l - 1)], l - 1, k - 1) + Preimages(H, s[Pow2(l - 1)..], l - 1, k - 1)
  }

  lemma RootOfTop(H: HashFunction, s: seq<Bytes>, l: nat)
    requires |s| == Pow2(l)
    ensures PerfectRoot(H, s, l) == H(TopString(H, s, l))
  {
  }

  lemma PreimagesHalves(H: HashFunction, s: seq<Bytes>, l: nat, k: nat)
    requires |s| == Pow2(l) && 0 < k <= l
    ensures Pow2(k) == 2 * Pow2(k - 1) && Pow2(l) == 2 * Pow2(l - 1)
    ensures var left, right := s[..Pow2(l - 1)], s[Pow2(l - 1)..];
            && Preimages(H, s, l, k)[..Pow2(k - 1)] == Preimages(H, left, l - 1, k - 1)
            && Preimages(H, s, l, k)[Pow2(k - 1)..] == Preimages(H, right, l - 1, k - 1)
  {
    hide TopString;
  }

  lemma {:induction false} PreimagesRoot(H: HashFunction, s: seq<Bytes>, l: nat, k: nat)
    requires |s| == Pow2(l) && k <= l
    ensures PerfectRoot(H, Preimages(H, s, l, k), k) == PerfectRoot(H, s, l)
    decreases k
  {
    hide Pow2, TopString;
    if k > 0 {
      PreimagesHalves(H, s, l, k);
      PreimagesRoot(H, s[..Pow2(l - 1)], l - 1, k - 1);
      PreimagesRoot(H, s[Pow2(l - 1)..], l - 1, k - 1);
    } else {
      RootOfTop(H, s, l);
      OneLeaf(H, TopString(H, s, l));
    }
  }

  lemma OneLeaf(H: HashFunction, c: Bytes)
    ensures |[c]| == Pow2(0) && PerfectRoot(H, [c], 0) == H(c)
  {
  }

  lemma {:induction false} PreimagesOfLeaves(H: HashFunction, s: seq<Bytes>, l: nat)
    requires |s| == Pow2(l)
    ensures Preimages(H, s, l, l) == s
  {
    if l == 0 {
      assert s == [s[0]];
    } else {
      var half := Pow2(l - 1);
      HalfSize(l);
      PreimagesOfLeaves(H, s[..half], l - 1);
      PreimagesOfLeaves(H, s[half..], l - 1);
      assert s[..half] + s[half..] == s;
      hide Pow2, TopString;
    }
  }

  /** Above the leaves they are pairs of hashes. */
  lemma {:induction false} PreimagesSize(H: HashFunction, s: seq<Bytes>, l: nat, k: nat)
    requires FixedSize(H) && |s| == Pow2(l) && k < l
    ensures forall i :: 0 <= i < |Preimages(H, s, l, k)| ==> |Preimages(H, s, l, k)[i]| == 64
    decreases k
  {
    var half := Pow2(l - 1);
    if k == 0 {
      PerfectRootSize(H, s[..half], l - 1);
      PerfectRootSize(H, s[half..], l - 1);
    } else {
      PreimagesSize(H, s[..half], l - 1, k - 1);
      PreimagesSize(H, s[half..], l - 1, k - 1);
    }
  }

  // ---- Roots across heights ----

  /** The strings hashed on the level of a tree of height t that a tree of height s puts its chunks on. */
  function DeepStrings(H: HashFunction, d: seq<Bytes>, t: nat, s: nat): seq<Bytes>
    requires Width(|d|, t) == 1 && s <= t
  {
    Preimages(H, Padded(d, t, 0), t, s)
  }

  /** Trees of heights s <= t have the same root exactly when the padded chunks of the first are the
      strings hashed on that level of the second, up to a collision that can be computed. */
  lemma RootsAcrossHeights(H: HashFunction, c: seq<Bytes>, s: nat, d: seq<Bytes>, t: nat)
    requires FixedSize(H) && Width(|c|, s) == 1 && Width(|d|, t) == 1 && s <= t
    ensures Padded(c, s, 0) == DeepStrings(H, d, t, s) ==> Node(H, c, s, 0) == Node(H, d, t, 0)
    ensures Node(H, c, s, 0) == Node(H, d, t, 0) ==>
              Padded(c, s, 0) == DeepStrings(H, d, t, s)
              || IsCollision(H, PerfectCollision(H, Padded(c, s, 0), DeepStrings(H, d, t, s), s))
  {
    NodeIsPerfectRoot(H, c, s, 0);
    NodeIsPerfectRoot(H, d, t, 0);
    var x, y := Padded(c, s, 0), DeepStrings(H, d, t, s);
    PreimagesRoot(H, Padded(d, t, 0), t, s);
    if Node(H, c, s, 0) == Node(H, d, t, 0) && x != y {
      PerfectRootBinding(H, x, y, s);
    }
  }

  /** So at unequal heights every chunk of the shallow tree is a pair of hashes, or there is the collision. */
  lemma UnequalHeights(H: HashFunction, c: seq<Bytes>, s: nat, d: seq<Bytes>, t: nat)
    requires FixedSize(H) && Width(|c|, s) == 1 && Width(|d|, t) == 1 && s < t
    requires Node(H, c, s, 0) == Node(H, d, t, 0)
    ensures (forall i :: 0 <= i < |c| ==> |c[i]| == 64)
         || IsCollision(H, PerfectCollision(H, Padded(c, s, 0), DeepStrings(H, d, t, s), s))
  {
    RootsAcrossHeights(H, c, s, d, t);
    PreimagesSize(H, Padded(d, t, 0), t, s);
    PaddedPrefix(c, s);
    if Padded(c, s, 0) == DeepStrings(H, d, t, s) {
      forall i | 0 <= i < |c| ensures |c[i]| == 64 {
        assert c[i] == Padded(c, s, 0)[i];
      }
    }
  }

  /** The strings to look at when two chunk lists have one root. */
  function RootCollision(H: HashFunction, c: seq<Bytes>, d: seq<Bytes>): (Bytes, Bytes) {
    if c == [] || d == [] then ([], [])
    else
      HeightIsTop(|c|);
      HeightIsTop(|d|);
      var s, t := Height(|c|), Height(|d|);
      if s <= t then PerfectCollision(H, Padded(c, s, 0), DeepStrings(H, d, t, s), s)
      else PerfectCollision(H, Padded(d, t, 0), DeepStrings(H, c, s, t), t)
  }

  /** Lists of equal heights with one root: the shorter begins the longer, or those strings collide. */
  lemma SameHeightRoots(H: HashFunction, c: seq<Bytes>, d: seq<Bytes>)
    requires FixedSize(H) && c != [] && d != [] && Height(|c|) == Height(|d|)
    requires Width(|c|, Height(|c|)) == Width(|d|, Height(|d|)) == 1
    requires Node(H, c, Height(|c|), 0) == Node(H, d, Height(|d|), 0)
    ensures (if |c| <= |d| then c == d[..|c|] else d == c[..|d|]) || IsCollision(H, RootCollision(H, c, d))
  {
    var s := Height(|c|);
    PreimagesOfLeaves(H, Padded(d, s, 0), s);
    EqualRoots(H, c, d, s);
    PaddedPrefix(c, s);
    PaddedPrefix(d, s);
  }

  /** Lists of one length with one root are equal, or those strings collide. */
  lemma SameCountRoots(H: HashFunction, c: seq<Bytes>, d: seq<Bytes>)
    requires FixedSize(H) && c != [] && |c| == |d|
    requires Width(|c|, Height(|c|)) == 1
    requires Node(H, c, Height(|c|), 0) == Node(H, d, Height(|d|), 0)
    ensures c == d || IsCollision(H, RootCollision(H, c, d))
  {
    SameHeightRoots(H, c, d);
  }

  // ---- Header roots ----

  ghost predicate Injective(encode: Bytes -> string) {
    forall a, b :: encode(a) == encode(b) ==> a == b
  }

  /** The header root of a chunk list: the empty string for no chunks, else the encoded root. */
  ghost predicate IsRootHash(H: HashFunction, encode: Bytes -> string, chunks: seq<Bytes>, root: string) {
    if chunks == [] then root == ""
    else exists top :: IsTop(|chunks|, top) && root == encode(Node(H, chunks, top, 0))
  }

  lemma TopUnique(n: nat, s: nat, t: nat)
    requires IsTop(n, s) && IsTop(n, t)
    ensures s == t
  {
  }

  /** Two chunk lists of one length with one header root are equal, or the strings that
      RootCollision finds collide. */
  lemma RootHashBinding(H: HashFunction, encode: Bytes -> string, c: seq<Bytes>, d: seq<Bytes>, root: string)
    requires FixedSize(H) && Injective(encode) && |c| == |d|
    requires IsRootHash(H, encode, c, root) && IsRootHash(H, encode, d, root)
    ensures c == d || IsCollision(H, RootCollision(H, c, d))
  {
    if c != [] {
      RootHashTop(H, encode, c, root);
      RootHashTop(H, encode, d, root);
      SameCountRoots(H, c, d);
    }
  }

  /** The header root of a nonempty list is taken at its height. */
  lemma RootHashTop(H: HashFunction, encode: Bytes -> string, c: seq<Bytes>, root: string)
    requires c != [] && IsRootHash(H, encode, c, root)
    ensures Width(|c|, Height(|c|)) == 1 && root == encode(Node(H, c, Height(|c|), 0))
  {
    HeightIsTop(|c|);
    var s :| IsTop(|c|, s) && root == encode(Node(H, c, s, 0));
    TopUnique(|c|, s, Height(|c|));
  }

  /** The roots of small lists, spelled out. */
  lemma SmallRoots(H: HashFunction, encode: Bytes -> string, a: Bytes, b: Bytes, c: Bytes)
    ensures IsRootHash(H, encode, [], "")
    ensures IsRootHash(H, encode, [a], encode(H(a)))
    ensures IsRootHash(H, encode, [a, b], encode(H(H(a) + H(b))))
    ensures IsRootHash(H, encode, [a, b, c], encode(H(H(H(a) + H(b)) + H(H(c) + H(c)))))
  {
    hide Node, Width;
    SmallWidths();
    SmallNodes(H, [a], [a, b], [a, b, c]);
    assert IsTop(1, 0) && IsTop(2, 1) && IsTop(3, 2);
  }

  lemma SmallWidths()
    ensures Width(1, 0) == 1
    ensures Width(2, 0) == 2 && Width(2, 1) == 1
    ensures Width(3, 0) == 3 && Width(3, 1) == 2 && Width(3, 2) == 1
  {
    assert Width(3, 2) == (Width(3, 1) + 1) / 2;
  }

  lemma SmallNodes(H: HashFunction, one: seq<Bytes>, two: seq<Bytes>, three: seq<Bytes>)
    requires |one| == 1 && |two| == 2 && |three| == 3
    ensures Width(1, 0) == 1 && Width(2, 1) == 1 && Width(3, 2) == 1
    ensures Node(H, one, 0, 0) == H(one[0])
    ensures Node(H, two, 1, 0) == H(H(two[0]) + H(two[1]))
    ensures Node(H, three, 2, 0) == H(H(H(three[0]) + H(three[1])) + H(H(three[2]) + H(three[2])))
  {
    SmallWidths();
    assert Node(H, two, 1, 0) == H(Node(H, two, 0, 0) + Node(H, two, 0, 1));
    assert Node(H, three, 1, 0) == H(Node(H, three, 0, 0) + Node(H, three, 0, 1));
    assert Node(H, three, 1, 1) == H(Node(H, three, 0, 2) + Node(H, three, 0, 2));
    assert Node(H, three, 2, 0) == H(Node(H, three, 1, 0) + Node(H, three, 1, 1));
  }
}
