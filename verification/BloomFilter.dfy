/** koot/plugins/breach_radar.py: the bit array of the breach radar and the set of positions it
    stands for. The SHA-1 digest is a parameter. */
module BloomFilter {
  import opened Bytes
  import opened PrimeField

  type Digest = d: Bytes | |d| == 20 witness seq(20, _ => 0)

  /** m bits, k positions a password, and the digest its positions are made of. */
  datatype Shape = Shape(m: nat, k: nat, digest: string -> Digest)

  function Term(h1: nat, h2: nat, i: nat): nat { h1 + i * h2 }

  /** The i-th position: the first two words of the digest start and step it. */
  function Position(f: Shape, password: string, i: nat): nat
    requires f.m > 0
  {
    var h1, h2 := FromBytes(f.digest(password)[..4]), FromBytes(f.digest(password)[4..8]);
    Term(h1, h2, i) % f.m
  }

  /** The positions go on from the first word in steps of the second. */
  lemma {:induction false} PositionSteps(f: Shape, password: string, i: nat)
    requires f.m > 0
    ensures Position(f, password, 0) == FromBytes(f.digest(password)[..4]) % f.m
    ensures Position(f, password, i + 1) == (Position(f, password, i) + FromBytes(f.digest(password)[4..8])) % f.m
  {
    hide FromBytes, Term;
    var h1, h2 := FromBytes(f.digest(password)[..4]), FromBytes(f.digest(password)[4..8]);
    OneMoreTerm(h1, h2, i);
    ModStep(f.m, Term(h1, h2, i), h2);
  }

  lemma OneMoreTerm(h1: nat, h2: nat, i: nat)
    ensures Term(h1, h2, 0) == h1 && Term(h1, h2, i + 1) == Term(h1, h2, i) + h2
  {
  }

  lemma {:induction false} ModStep(m: Positive, x: int, y: int)
    ensures (x + y) % m == (x % m + y) % m
  {
    var z := x % m + y;
    assert (x / m + z / m) * m == (x / m) * m + (z / m) * m;
    DivModUnique(m, x + y, x / m + z / m, z % m);
  }

  function Positions(f: Shape, password: string): (p: seq<nat>)
    requires f.m > 0
    ensures |p| == f.k
    ensures forall i :: 0 <= i < f.k ==> p[i] == Position(f, password, i) < f.m
  {
    seq(f.k, i requires 0 <= i < f.k => Position(f, password, i))
  }

  function ByteSize(m: nat): nat { (m + 7) / 8 }

  // ---- Bits ----

  function Mask(b: nat): bv8
    requires b < 8
  {
    (1 as bv8) << b
  }

  predicate IsSet(bytes: seq<bv8>, pos: nat)
    requires pos / 8 < |bytes|
  {
    bytes[pos / 8] & Mask(pos % 8) != 0
  }

  lemma MaskValue(b: nat)
    requires b < 8
    ensures Mask(b) == [1, 2, 4, 8, 16, 32, 64, 128][b]
  {
  }

  /** Bit b of a byte counts 2^b. */
  lemma BitWeight(bytes: seq<bv8>, pos: nat)
    requires pos / 8 < |bytes|
    ensures IsSet(bytes, pos) <==> (bytes[pos / 8] >> (pos % 8)) & 1 == 1
  {
    var x, b := bytes[pos / 8], pos % 8;
    MaskValue(b);
    if b < 4 {
      assert b == 0 || b == 1 || b == 2 || b == 3;
    } else {
      assert b == 4 || b == 5 || b == 6 || b == 7;
    }
  }

  /** Setting one bit of a byte sets that bit and no other. */
  lemma SetBit(x: bv8, b: nat, c: nat)
    requires b < 8 && c < 8
    ensures (x | Mask(b)) & Mask(c) != 0 <==> b == c || x & Mask(c) != 0
  {
    MaskValue(b);
    MaskValue(c);
  }

  /** A byte is determined by its bits. */
  lemma BitsDetermine(x: bv8, y: bv8)
    requires forall b: nat :: b < 8 ==> (x & Mask(b) != 0 <==> y & Mask(b) != 0)
    ensures x == y
  {
    forall b: nat | b < 8 ensures x & [1, 2, 4, 8, 16, 32, 64, 128][b] == y & [1, 2, 4, 8, 16, 32, 64, 128][b] {
      MaskValue(b);
      OneBit(x, y, b);
    }
    var masks: seq<bv8> := [1, 2, 4, 8, 16, 32, 64, 128];
    assert x & masks[0] == y & masks[0] && x & masks[1] == y & masks[1];
    assert x & masks[2] == y & masks[2] && x & masks[3] == y & masks[3];
    assert x & masks[4] == y & masks[4] && x & masks[5] == y & masks[5];
    assert x & masks[6] == y & masks[6] && x & masks[7] == y & masks[7];
  }

  lemma OneBit(x: bv8, y: bv8, b: nat)
    requires b < 8 && (x & Mask(b) != 0 <==> y & Mask(b) != 0)
    ensures x & [1, 2, 4, 8, 16, 32, 64, 128][b] == y & [1, 2, 4, 8, 16, 32, 64, 128][b]
  {
    MaskValue(b);
  }

  // ---- The set the array stands for ----

  ghost function SetBits(bytes: seq<bv8>): set<nat> {
    set pos: nat | pos < 8 * |bytes| && IsSet(bytes, pos)
  }

  ghost function FirstPositions(f: Shape, password: string, n: nat): set<nat>
    requires f.m > 0
  {
    set i: nat | i < n :: Position(f, password, i)
  }

  ghost function PositionSet(f: Shape, password: string): set<nat>
    requires f.m > 0
  {
    FirstPositions(f, password, f.k)
  }

  lemma NextPosition(f: Shape, password: string, n: nat)
    requires f.m > 0
    ensures FirstPositions(f, password, 0) == {}
    ensures FirstPositions(f, password, n + 1) == FirstPositions(f, password, n) + {Position(f, password, n)}
  {
  }

  lemma ZeroedIsEmpty(bytes: seq<bv8>)
    requires forall i :: 0 <= i < |bytes| ==> bytes[i] == 0
    ensures SetBits(bytes) == {}
  {
  }

  lemma {:induction false} SetOneBit(bytes: seq<bv8>, pos: nat)
    requires pos / 8 < |bytes|
    ensures SetBits(bytes[pos / 8 := bytes[pos / 8] | Mask(pos % 8)]) == SetBits(bytes) + {pos}
  {
    var after := bytes[pos / 8 := bytes[pos / 8] | Mask(pos % 8)];
    forall q: nat | q < 8 * |bytes| ensures IsSet(after, q) <==> IsSet(bytes, q) || q == pos {
      if q / 8 == pos / 8 {
        SetBit(bytes[pos / 8], pos % 8, q % 8);
      }
    }
  }

  /** Arrays of one size with the same set bits are equal. */
  lemma SetDeterminesArray(a: seq<bv8>, b: seq<bv8>)
    requires |a| == |b| && SetBits(a) == SetBits(b)
    ensures a == b
  {
    forall i | 0 <= i < |a| ensures a[i] == b[i] {
      forall c: nat | c < 8 ensures a[i] & Mask(c) != 0 <==> b[i] & Mask(c) != 0 {
        var pos := 8 * i + c;
        assert pos / 8 == i && pos % 8 == c;
        assert pos in SetBits(a) <==> IsSet(a, pos);
        assert pos in SetBits(b) <==> IsSet(b, pos);
      }
      BitsDetermine(a[i], b[i]);
    }
  }

  // ---- Runs of ingestions ----

  /** The positions of all the passwords. */
  ghost function Union(f: Shape, passwords: seq<string>): set<nat>
    requires f.m > 0
  {
    if passwords == [] then {} else Union(f, passwords[..|passwords| - 1]) + PositionSet(f, passwords[|passwords| - 1])
  }

  lemma {:induction false} UnionMembers(f: Shape, passwords: seq<string>, pos: nat)
    requires f.m > 0
    ensures pos in Union(f, passwords) <==> exists i :: 0 <= i < |passwords| && pos in PositionSet(f, passwords[i])
    decreases |passwords|
  {
    if passwords != [] {
      var last := |passwords| - 1;
      UnionMembers(f, passwords[..last], pos);
      if i :| 0 <= i < last && pos in PositionSet(f, passwords[..last][i]) {
        assert pos in PositionSet(f, passwords[i]);
      }
      if i :| 0 <= i < |passwords| && pos in PositionSet(f, passwords[i]) {
        assert i < last ==> passwords[..last][i] == passwords[i];
      }
    }
  }

  /** Order and repetition of the ingested passwords do not matter: arrays that stand for the same
      passwords, starting from zero, are equal byte for byte. */
  lemma OrderAndRepetition(f: Shape, ps: seq<string>, qs: seq<string>, a: seq<bv8>, b: seq<bv8>)
    requires f.m > 0 && |a| == |b| && SetBits(a) == Union(f, ps) && SetBits(b) == Union(f, qs)
    requires forall p :: p in ps <==> p in qs
    ensures a == b
  {
    forall pos: nat ensures pos in Union(f, ps) <==> pos in Union(f, qs) {
      UnionMembers(f, ps, pos);
      UnionMembers(f, qs, pos);
      if i :| 0 <= i < |ps| && pos in PositionSet(f, ps[i]) {
        assert ps[i] in qs;
      }
      if i :| 0 <= i < |qs| && pos in PositionSet(f, qs[i]) {
        assert qs[i] in ps;
      }
    }
    assert Union(f, ps) == Union(f, qs);
    SetDeterminesArray(a, b);
  }

  /** No false negatives, and a positive answer means just that every position of the password is one of
      an ingested password. */
  lemma {:induction false} PositiveExactly(f: Shape, passwords: seq<string>, password: string)
    requires f.m > 0
    ensures password in passwords ==> PositionSet(f, password) <= Union(f, passwords)
    ensures PositionSet(f, password) <= Union(f, passwords) <==>
              forall i: nat :: i < f.k ==>
                exists j :: 0 <= j < |passwords| && Position(f, password, i) in PositionSet(f, passwords[j])
  {
    forall pos: nat ensures pos in Union(f, passwords) <==>
        exists j :: 0 <= j < |passwords| && pos in PositionSet(f, passwords[j])
    {
      UnionMembers(f, passwords, pos);
    }
    forall i: nat | i < f.k ensures Position(f, password, i) in PositionSet(f, password) {
    }
    if password in passwords {
      var j :| 0 <= j < |passwords| && passwords[j] == password;
      assert forall pos :: pos in PositionSet(f, password) ==> pos in PositionSet(f, passwords[j]);
    }
  }

  class BreachRadar {
    const shape: Shape
    var isEnabled: bool
    var bitArray: array?<bv8>

    ghost predicate Valid()
      reads this
    {
      shape.m > 0 && (bitArray != null ==> bitArray.Length == ByteSize(shape.m))
    }

    /** The set bits while the radar is active; nothing while it is dormant. */
    ghost function Contents(): set<nat>
      reads this, bitArray
    {
      if bitArray != null then SetBits(bitArray[..]) else {}
    }

    constructor (shape: Shape, isEnabled: bool)
      requires shape.m > 0
      ensures Valid() && this.shape == shape && this.isEnabled == isEnabled && Contents() == {}
      ensures isEnabled <==> bitArray != null
      ensures bitArray != null ==> bitArray.Length == (shape.m + 7) / 8
      ensures bitArray != null ==> fresh(bitArray)
    {
      this.shape := shape;
      this.isEnabled := isEnabled;
      bitArray := null;
      new;
      if isEnabled {
        bitArray := new bv8[ByteSize(shape.m)](i => 0);
        ZeroedIsEmpty(bitArray[..]);
      }
    }

    method Ingest(password: string)
      requires Valid()
      modifies bitArray
      ensures Valid()
      ensures Contents() == old(Contents()) + if isEnabled && bitArray != null then PositionSet(shape, password) else {}
    {
      hide SetBits, FirstPositions, IsSet, Mask, Position;
      if !isEnabled || bitArray == null {
        return;
      }
      var positions := Positions(shape, password);
      var i := 0;
      NextPosition(shape, password, 0);
      while i < |positions|
        invariant 0 <= i <= |positions|
        invariant Contents() == old(Contents()) + FirstPositions(shape, password, i)
      {
        var pos := positions[i];
        ghost var before := bitArray[..];
        SetOneBit(before, pos);
        NextPosition(shape, password, i);
        bitArray[pos / 8] := bitArray[pos / 8] | Mask(pos % 8);
        assert bitArray[..] == before[pos / 8 := before[pos / 8] | Mask(pos % 8)];
        i := i + 1;
      }
    }

    method IsCompromised(password: string) returns (r: bool)
      requires Valid()
      ensures r <==> isEnabled && bitArray != null && PositionSet(shape, password) <= Contents()
    {
      if !isEnabled || bitArray == null {
        return false;
      }
      var positions := Positions(shape, password);
      var i := 0;
      while i < |positions|
        invariant 0 <= i <= |positions|
        invariant forall j: nat :: j < i ==> Position(shape, password, j) in Contents()
      {
        var pos := positions[i];
        assert pos in Contents() <==> IsSet(bitArray[..], pos);
        if bitArray[pos / 8] & Mask(pos % 8) == 0 {
          assert pos in PositionSet(shape, password);
          return false;
        }
        i := i + 1;
      }
      return true;
    }

    /** One password after another. */
    method IngestAll(passwords: seq<string>)
      requires Valid() && isEnabled && bitArray != null
      modifies bitArray
      ensures Valid() && Contents() == old(Contents()) + Union(shape, passwords)
    {
      var k := 0;
      while k < |passwords|
        invariant 0 <= k <= |passwords|
        invariant Contents() == old(Contents()) + Union(shape, passwords[..k])
      {
        Ingest(passwords[k]);
        assert passwords[..k + 1][..k] == passwords[..k];
        k := k + 1;
      }
      assert passwords[..k] == passwords;
    }
  }
}
