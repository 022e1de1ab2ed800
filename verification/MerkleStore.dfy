/** koot/storage/integrity/merkle.py: the disk-backed tree, a table from (level, idx) to a
    hash filled level by level. The SQLite table is a map; a cursor over one level in idx
    order is the position of its next row. */
module MerkleStore {
  import opened Bytes
  import opened Merkle
  import opened MerkleRoots

  type Table = map<(int, int), Bytes>

  /** The table holds the levels up to level in full, and the first partial nodes of the next. */
  ghost predicate Holds(H: HashFunction, chunks: seq<Bytes>, nodes: Table, level: nat, partial: nat) {
    && partial <= Width(|chunks|, level + 1)
    && (forall l, i :: (l, i) in nodes <==> IsFilled(|chunks|, level, partial, l, i))
    && (forall l: nat, i: nat :: (l, i) in nodes ==>
          i < Width(|chunks|, l) && nodes[(l, i)] == Node(H, chunks, l, i))
  }

  ghost predicate IsFilled(n: nat, level: nat, partial: nat, l: int, i: int) {
    0 <= i && ((0 <= l <= level && i < Width(n, l)) || (l == level + 1 && i < partial))
  }

  lemma InsertParent(H: HashFunction, chunks: seq<Bytes>, nodes: Table, level: nat, count: nat)
    requires Holds(H, chunks, nodes, level, count) && count < Width(|chunks|, level + 1)
    ensures Holds(H, chunks, nodes[(level + 1, count) := Node(H, chunks, level + 1, count)], level, count + 1)
  {
  }

  lemma LevelDone(H: HashFunction, chunks: seq<Bytes>, nodes: Table, level: nat)
    requires Holds(H, chunks, nodes, level, Width(|chunks|, level + 1))
    ensures Holds(H, chunks, nodes, level + 1, 0)
  {
    forall l, i ensures (l, i) in nodes <==> IsFilled(|chunks|, level + 1, 0, l, i) {
      assert (l, i) in nodes <==> IsFilled(|chunks|, level, Width(|chunks|, level + 1), l, i);
    }
  }

  /** The children of a node still to be inserted are in the table, and only real ones are. */
  lemma ChildrenPresent(H: HashFunction, chunks: seq<Bytes>, nodes: Table, level: nat, count: nat)
    requires Holds(H, chunks, nodes, level, count)
    ensures (level, 2 * count) in nodes <==> count < Width(|chunks|, level + 1)
    ensures (level, 2 * count) in nodes ==>
              var left := nodes[(level, 2 * count)];
              var right := if (level, 2 * count + 1) in nodes then nodes[(level, 2 * count + 1)] else left;
              H(left + right) == Node(H, chunks, level + 1, count)
  {
    assert IsFilled(|chunks|, level, count, level, 2 * count) <==> 2 * count < Width(|chunks|, level);
    assert IsFilled(|chunks|, level, count, level, 2 * count + 1) <==> 2 * count + 1 < Width(|chunks|, level);
  }

  /** A missing right child means the level's last row has been read. */
  lemma NoMoreRows(H: HashFunction, chunks: seq<Bytes>, nodes: Table, level: nat, count: nat)
    requires Holds(H, chunks, nodes, level, count)
    requires (level, 2 * count) in nodes && (level, 2 * count + 1) !in nodes
    ensures count + 1 == Width(|chunks|, level + 1)
  {
    assert IsFilled(|chunks|, level, count, level, 2 * count);
    assert IsFilled(|chunks|, level, count, level, 2 * count + 1) <==> 2 * count + 1 < Width(|chunks|, level);
  }

  class MerkleTree {
    const hash: HashFunction
    const encode: Bytes -> string
    var nodes: Table
    var leafCount: nat
    var maxLevel: nat
    ghost var chunks: seq<Bytes>

    ghost predicate Growing()
      reads this
    {
      leafCount == |chunks| && maxLevel == 0 && Holds(hash, chunks, nodes, 0, 0)
    }

    ghost predicate Built()
      reads this
    {
      && leafCount == |chunks|
      && Holds(hash, chunks, nodes, maxLevel, 0)
      && if chunks == [] then maxLevel == 0 else IsTop(|chunks|, maxLevel)
    }

    constructor (hash: HashFunction, encode: Bytes -> string)
      ensures Growing() && chunks == [] && this.hash == hash && this.encode == encode
    {
      this.hash := hash;
      this.encode := encode;
      nodes := map[];
      leafCount, maxLevel := 0, 0;
      chunks := [];
    }

    method AddChunk(chunk: Bytes)
      requires Growing()
      modifies this
      ensures Growing() && chunks == old(chunks) + [chunk]
    {
      var chunkHash := hash(chunk);
      nodes := nodes[(0, leafCount) := chunkHash];
      leafCount := leafCount + 1;
      chunks := chunks + [chunk];
    }

    method Build()
      requires Growing()
      modifies this
      ensures Built() && chunks == old(chunks)
      ensures chunks != [] ==> |chunks| <= Pow2(maxLevel) && forall l :: 0 <= l < maxLevel ==> Pow2(l) < |chunks|
    {
      if leafCount == 0 {
        return;
      }
      var currentLevel := 0;
      var currentLevelCount := leafCount;
      while currentLevelCount > 1
        invariant Holds(hash, chunks, nodes, currentLevel, 0) && chunks == old(chunks) && leafCount == |chunks|
        invariant currentLevelCount == Width(|chunks|, currentLevel) > 0
        invariant forall l :: 0 <= l < currentLevel ==> Width(|chunks|, l) > 1
        decreases currentLevelCount
      {
        var nextLevelCount := BuildLevel(currentLevel);
        currentLevel := currentLevel + 1;
        currentLevelCount := nextLevelCount;
      }
      maxLevel := currentLevel;
      TopIsLeast(|chunks|, maxLevel);
    }

    /** The inner loop: read one level in order, two rows at a time, and insert their parents. */
    method BuildLevel(level: nat) returns (count: nat)
      requires Holds(hash, chunks, nodes, level, 0) && Width(|chunks|, level) > 1
      modifies this`nodes
      ensures Holds(hash, chunks, nodes, level + 1, 0) && count == Width(|chunks|, level + 1)
    {
      hide Holds, Node, Width;
      count := 0;
      var cursor := 0;
      ghost var width := Width(|chunks|, level + 1);
      ChildrenPresent(hash, chunks, nodes, level, 0);
      while (level, cursor) in nodes
        invariant Holds(hash, chunks, nodes, level, count) && count <= width
        invariant (level, cursor) in nodes ==> cursor == 2 * count
        invariant (level, cursor) in nodes <==> count < width
        decreases width - count
      {
        ChildrenPresent(hash, chunks, nodes, level, count);
        InsertParent(hash, chunks, nodes, level, count);
        var leftHash := nodes[(level, cursor)];
        cursor := cursor + 1;
        var rightHash := leftHash;
        if (level, cursor) in nodes {
          rightHash := nodes[(level, cursor)];
          cursor := cursor + 1;
        } else {
          NoMoreRows(hash, chunks, nodes, level, count);
        }
        var parentHash := hash(leftHash + rightHash);
        nodes := nodes[(level + 1, count) := parentHash];
        count := count + 1;
        ChildrenPresent(hash, chunks, nodes, level, count);
      }
      LevelDone(hash, chunks, nodes, level);
    }

    method GetRootHash() returns (root: string)
      requires Growing() || Built()
      ensures Built() ==> IsRootHash(hash, encode, chunks, root)
      ensures !Built() ==> root == encode(hash(chunks[0]))
      ensures chunks == [] ==> root == ""
    {
      if leafCount == 0 {
        return "";
      }
      SingleNodeLevel(|chunks|, maxLevel);
      if (maxLevel, 0) in nodes {
        return encode(nodes[(maxLevel, 0)]);
      }
      return "";
    }

    /** For any index; outside the chunks a missing sibling is reported as an empty string. */
    method GetProof(index: int) returns (proof: seq<ProofStep>)
      requires Growing() || Built()
      ensures |proof| == maxLevel
      ensures forall l {:trigger proof[l]} :: 0 <= l < maxLevel ==>
                proof[l] == StepAt(nodes, l, AncestorIndex(index, l))
      ensures Built() && 0 <= index < |chunks| ==> proof == PathFrom(hash, chunks, 0, index, maxLevel)
    {
      hide Holds, Width, Node, IsTop;
      proof := [];
      if leafCount == 0 {
        return;
      }
      var currIndex := index;
      var level := 0;
      while level < maxLevel
        invariant 0 <= level <= maxLevel && |proof| == level && currIndex == AncestorIndex(index, level)
        invariant forall l {:trigger proof[l]} :: 0 <= l < level ==>
                    proof[l] == StepAt(nodes, l, AncestorIndex(index, l))
      {
        var isLeftNode := currIndex % 2 == 0;
        var siblingIndex;
        if isLeftNode {
          siblingIndex := currIndex + 1;
          if (level, siblingIndex) !in nodes {
            siblingIndex := currIndex;
          }
        } else {
          siblingIndex := currIndex - 1;
        }
        var siblingHash: Bytes := if (level, siblingIndex) in nodes then nodes[(level, siblingIndex)] else [];
        proof := proof + [ProofStep(siblingHash, !isLeftNode)];
        currIndex := currIndex / 2;
        level := level + 1;
      }
      if Built() && 0 <= index < |chunks| {
        assert Width(|chunks|, 0) == |chunks| by { ZeroLevel(|chunks|); }
        TableGivesPath(hash, chunks, nodes, maxLevel, index, proof, 0);
        assert proof[0..] == proof;
      }
    }
  }

  /** The index of the ancestor on level l, rounding down, for any integer index. */
  function AncestorIndex(index: int, l: nat): int {
    if l == 0 then index else AncestorIndex(index, l - 1) / 2
  }

  /** What the table offers as the sibling of position i of level l: the left neighbour of an odd
      position, the right one of an even position or itself when there is none, and nothing outside. */
  function StepAt(nodes: Table, l: int, i: int): ProofStep {
    var s := if i % 2 == 1 then i - 1 else if (l, i + 1) in nodes then i + 1 else i;
    ProofStep(if (l, s) in nodes then nodes[(l, s)] else [], i % 2 == 1)
  }

  lemma {:induction false} TableGivesPath(H: HashFunction, chunks: seq<Bytes>, nodes: Table, top: nat, index: nat,
                                          proof: seq<ProofStep>, l: nat)
    requires Holds(H, chunks, nodes, top, 0) && index < |chunks| && |proof| == top && l <= top
    requires forall j {:trigger proof[j]} :: 0 <= j < top ==> proof[j] == StepAt(nodes, j, AncestorIndex(index, j))
    requires 0 <= AncestorIndex(index, l) < Width(|chunks|, l)
    ensures proof[l..] == PathFrom(H, chunks, l, AncestorIndex(index, l), top)
    decreases top - l
  {
    hide Holds, Width, Node, StepAt, SiblingIndex;
    if l < top {
      var i := AncestorIndex(index, l);
      ParentIndex(|chunks|, l, i);
      assert AncestorIndex(index, l + 1) == i / 2;
      TableGivesPath(H, chunks, nodes, top, index, proof, l + 1);
      StepMatches(H, chunks, nodes, top, l, i);
      assert proof[l..] == [proof[l]] + proof[l + 1..];
    }
  }

  lemma ZeroLevel(n: nat)
    ensures Width(n, 0) == n
  {
  }

  lemma ParentIndex(n: nat, l: nat, i: nat)
    requires i < Width(n, l)
    ensures i / 2 < Width(n, l + 1)
  {
  }

  lemma StepMatches(H: HashFunction, chunks: seq<Bytes>, nodes: Table, top: nat, level: nat, i: nat)
    requires Holds(H, chunks, nodes, top, 0) && level < top && i < Width(|chunks|, level)
    ensures StepAt(nodes, level, i) == ProofStep(Node(H, chunks, level, SiblingIndex(|chunks|, level, i)), i % 2 == 1)
  {
    hide Holds, Width, Node;
    SiblingPresent(H, chunks, nodes, top, level, i);
  }

  lemma SiblingPresent(H: HashFunction, chunks: seq<Bytes>, nodes: Table, top: nat, level: nat, i: nat)
    requires Holds(H, chunks, nodes, top, 0) && level < top && i < Width(|chunks|, level)
    ensures (level, i + 1) in nodes <==> i + 1 < Width(|chunks|, level)
    ensures var s := SiblingIndex(|chunks|, level, i);
            (level, s) in nodes && nodes[(level, s)] == Node(H, chunks, level, s)
  {
    assert IsFilled(|chunks|, top, 0, level, i + 1) <==> i + 1 < Width(|chunks|, level);
    assert IsFilled(|chunks|, top, 0, level, SiblingIndex(|chunks|, level, i));
  }
}
