/** koot/storage/chunking/buffered_adaptive.py and the file entry point of
    koot/core/envelope/envelope.py: physical reads follow the hardware, logical chunks do not. */
module Chunking {
  import opened Bytes
  import opened Merkle
  import opened MerkleRoots
  import opened MerkleStore
  import opened PrimeField

  const LOGICAL_SIZE: nat := 65536

  /** One look at the available memory, in megabytes, or a failed sensor. */
  datatype Reading = Unavailable | Available(megabytes: real)

  /** The chunks of data: all of the given size but a shorter, nonempty last one. */
  function FixedSplit(data: Bytes, size: nat): seq<Bytes>
    requires size > 0
  {
    if data == [] then []
    else if |data| <= size then [data]
    else [data[..size]] + FixedSplit(data[size..], size)
  }

  ghost predicate IsFixedSplit(chunks: seq<Bytes>, data: Bytes, size: nat) {
    && Flatten(chunks) == data
    && (forall i :: 0 <= i < |chunks| - 1 ==> |chunks[i]| == size)
    && (chunks != [] ==> 0 < |chunks[|chunks| - 1]| <= size)
  }

  /** FixedSplit is the only way to cut data like that. */
  lemma {:induction false} FixedSplitUnique(chunks: seq<Bytes>, data: Bytes, size: nat)
    requires size > 0
    ensures IsFixedSplit(chunks, data, size) <==> chunks == FixedSplit(data, size)
    decreases |data|, |chunks|
  {
    var split := FixedSplit(data, size);
    if data != [] && |data| > size {
      FixedSplitUnique(split[1..], data[size..], size);
      assert data[..size] + data[size..] == data;
      assert split == [data[..size]] + split[1..];
      if IsFixedSplit(chunks, data, size) {
        SeveralChunks(chunks, data, size);
        FixedSplitUnique(chunks[1..], data[size..], size);
      }
    } else {
      SingleFlatten(data);
      if IsFixedSplit(chunks, data, size) {
        OneChunk(chunks, data, size);
      }
    }
  }

  lemma SingleFlatten(data: Bytes)
    ensures Flatten([data]) == data && Flatten<Byte>([]) == []
  {
    assert Flatten([data]) == data + Flatten<Byte>([]);
  }

  lemma OneChunk(chunks: seq<Bytes>, data: Bytes, size: nat)
    requires IsFixedSplit(chunks, data, size) && |data| <= size
    ensures chunks == if data == [] then [] else [data]
  {
    if |chunks| >= 2 {
      LastPart(chunks[1..]);
      assert false;
    } else if |chunks| == 1 {
      LonePart(chunks);
    }
  }

  lemma LonePart(chunks: seq<Bytes>)
    requires |chunks| == 1
    ensures chunks == [chunks[0]] && Flatten(chunks) == chunks[0]
  {
    assert chunks == [chunks[0]];
    SingleFlatten(chunks[0]);
  }

  lemma LastPart(chunks: seq<Bytes>)
    requires chunks != []
    ensures |Flatten(chunks)| >= |chunks[|chunks| - 1]|
  {
    if |chunks| > 1 {
      LastPart(chunks[1..]);
    }
  }

  lemma SeveralChunks(chunks: seq<Bytes>, data: Bytes, size: nat)
    requires IsFixedSplit(chunks, data, size) && |data| > size
    ensures chunks != [] && chunks[0] == data[..size] && IsFixedSplit(chunks[1..], data[size..], size)
  {
    if |chunks| == 1 {
      LonePart(chunks);
      assert false;
    } else {
      assert data == chunks[0] + Flatten(chunks[1..]);
      assert data[size..] == Flatten(chunks[1..]);
    }
  }

  function PhysicalSize(reading: Reading): nat {
    match reading
    case Unavailable => 16384
    case Available(mb) => if mb < 512.0 then 16384 else if mb < 2048.0 then 65536 else 1048576
  }

  /** A file read: up to n bytes, fewer only at the end. */
  function ReadAt(file: Bytes, position: nat, n: nat): Bytes
    requires position <= |file|
  {
    if position + n <= |file| then file[position..position + n] else file[position..]
  }

  class BufferedAdaptiveChunker {
    const logicalChunkSize: nat
    var currentPhysicalSize: nat
    var buffer: Bytes

    constructor (logicalChunkSize: nat)
      ensures this.logicalChunkSize == logicalChunkSize && buffer == [] && currentPhysicalSize == 16384
    {
      this.logicalChunkSize := logicalChunkSize;
      currentPhysicalSize := 16384;
      buffer := [];
    }

    method EvaluateHardware(reading: Reading)
      modifies this`currentPhysicalSize
      ensures currentPhysicalSize == PhysicalSize(reading)
      ensures currentPhysicalSize == 16384 <==> reading.Unavailable? || reading.megabytes < 512.0
      ensures currentPhysicalSize == 65536 <==> reading.Available? && 512.0 <= reading.megabytes < 2048.0
      ensures currentPhysicalSize == 1048576 <==> reading.Available? && reading.megabytes >= 2048.0
    {
      match reading {
        case Available(mb) =>
          if mb < 512.0 {
            if currentPhysicalSize != 16384 {
              currentPhysicalSize := 16384;
            }
          } else if mb < 2048.0 {
            if currentPhysicalSize != 65536 {
              currentPhysicalSize := 65536;
            }
          } else {
            if currentPhysicalSize != 1048576 {
              currentPhysicalSize := 1048576;
            }
          }
        case Unavailable =>
          if currentPhysicalSize != 16384 {
            currentPhysicalSize := 16384;
          }
      }
    }

    /** Everything the generator yields when it is run to its end, whatever the sensor says. The trace
        holds the buffer's length and the physical size after each read that is not empty. */
    method ProcessStream(file: Bytes, sensor: nat -> Reading)
        returns (chunks: seq<Bytes>, ghost trace: seq<(nat, nat)>)
      requires 0 < logicalChunkSize && |buffer| < logicalChunkSize
      modifies this
      ensures chunks == FixedSplit(old(buffer) + file, logicalChunkSize)
      ensures buffer == []
      ensures trace == BufferLevels(old(|buffer|), |file|, sensor, 0, logicalChunkSize)
      ensures WithinBound(trace, logicalChunkSize)
    {
      BufferBound(|buffer|, |file|, sensor, 0, logicalChunkSize);
      hide *;
      chunks, trace := [], [];
      var position, readings := 0, 0;
      ghost var data, total := buffer + file, BufferLevels(|buffer|, |file|, sensor, 0, logicalChunkSize);
      StreamStarts(buffer, file, sensor, logicalChunkSize);
      while true
        invariant 0 <= position <= |file| && |buffer| < logicalChunkSize
        invariant Pending(chunks, buffer, file[position..], data, logicalChunkSize)
        invariant TraceGoesOn(trace, |buffer|, |file| - position, sensor, readings, logicalChunkSize, total)
        decreases |file| - position
      {
        EvaluateHardware(sensor(readings));
        var physicalChunk := ReadAt(file, position, currentPhysicalSize);
        if physicalChunk == [] {
          StreamEnds(chunks, buffer, file, position, data, trace, sensor, readings, logicalChunkSize, total);
          if buffer != [] {
            chunks := chunks + [buffer];
            buffer := [];
          }
          return;
        }
        StreamStep(chunks, buffer, physicalChunk, file, position, data,
                   trace, sensor, readings, logicalChunkSize, total);
        readings := readings + 1;
        position := position + |physicalChunk|;
        buffer := buffer + physicalChunk;
        trace := trace + [(|buffer|, currentPhysicalSize)];
        chunks := YieldFull(chunks, file[position..], data);
      }
    }

    /** The inner loop: yield while the buffer holds a full logical chunk. */
    method YieldFull(yielded: seq<Bytes>, ghost rest: Bytes, ghost data: Bytes) returns (chunks: seq<Bytes>)
      requires 0 < logicalChunkSize && Pending(yielded, buffer, rest, data, logicalChunkSize)
      modifies this`buffer
      ensures |buffer| < logicalChunkSize && Pending(chunks, buffer, rest, data, logicalChunkSize)
      ensures |buffer| == Carried(old(|buffer|), logicalChunkSize)
    {
      chunks := yielded;
      while |buffer| >= logicalChunkSize
        invariant Pending(chunks, buffer, rest, data, logicalChunkSize)
        invariant Carried(|buffer|, logicalChunkSize) == Carried(old(|buffer|), logicalChunkSize)
        decreases |buffer|
      {
        LessOneChunk(|buffer|, logicalChunkSize);
        var logicalChunk := buffer[..logicalChunkSize];
        OneYielded(chunks, buffer, rest, data, logicalChunkSize);
        buffer := buffer[logicalChunkSize..];
        chunks := chunks + [logicalChunk];
      }
      LessThanChunk(|buffer|, logicalChunkSize);
    }
  }

  /** What is left of a buffer once its full chunks are gone. */
  ghost function Carried(n: nat, size: nat): (r: nat)
    requires size > 0
    ensures r < size
  {
    n % size
  }

  /** The length of the buffer after each read, with the physical size in force: a read adds the physical
      size or the rest of the file, and what the full chunks leave over is carried to the next. */
  ghost function BufferLevels(buffered: nat, unread: nat, sensor: nat -> Reading, k: nat, size: nat): seq<(nat, nat)>
    requires size > 0
    decreases unread
  {
    if unread == 0 then []
    else
      var physical := PhysicalSize(sensor(k));
      var n := if physical <= unread then physical else unread;
      [(buffered + n, physical)] + BufferLevels(Carried(buffered + n, size), unread - n, sensor, k + 1, size)
  }

  ghost predicate WithinBound(levels: seq<(nat, nat)>, size: nat) {
    forall i :: 0 <= i < |levels| ==> levels[i].0 <= size - 1 + levels[i].1
  }

  /** The buffer never holds a full chunk more than one read has brought. */
  lemma {:induction false} BufferBound(buffered: nat, unread: nat, sensor: nat -> Reading, k: nat, size: nat)
    requires buffered < size
    ensures WithinBound(BufferLevels(buffered, unread, sensor, k, size), size)
    decreases unread
  {
    if unread > 0 {
      var physical := PhysicalSize(sensor(k));
      var n := if physical <= unread then physical else unread;
      BufferBound(Carried(buffered + n, size), unread - n, sensor, k + 1, size);
    }
  }

  /** How much memory a run of readings may cost. */
  ghost predicate Scarce(reading: Reading) { reading.Unavailable? || reading.megabytes < 512.0 }

  ghost predicate Plenty(reading: Reading) { reading.Available? && reading.megabytes >= 2048.0 }

  /** Each read is as large as its reading allows: a scarce one brings at most 16 KB, one that is not plenty at
      most 64 KB, and any at most 1 MB. */
  lemma {:induction false} LevelsFollowReadings(buffered: nat, unread: nat, sensor: nat -> Reading, k: nat, size: nat,
                                                i: nat)
    requires buffered < size && i < |BufferLevels(buffered, unread, sensor, k, size)|
    ensures BufferLevels(buffered, unread, sensor, k, size)[i].0 <= size - 1 +
              if Scarce(sensor(k + i)) then 16384 else if Plenty(sensor(k + i)) then 1048576 else 65536
    ensures i < |BufferLevels(buffered, unread, sensor, k, size)| - 1 ==>
              BufferLevels(buffered, unread, sensor, k, size)[i].0 >=
              if Scarce(sensor(k + i)) then 16384 else if Plenty(sensor(k + i)) then 1048576 else 65536
    decreases unread
  {
    var physical := PhysicalSize(sensor(k));
    var n := if physical <= unread then physical else unread;
    if i > 0 {
      LevelsFollowReadings(Carried(buffered + n, size), unread - n, sensor, k + 1, size, i - 1);
    }
  }

  ghost predicate TraceGoesOn(trace: seq<(nat, nat)>, buffered: nat, unread: nat, sensor: nat -> Reading, k: nat,
                              size: nat, total: seq<(nat, nat)>)
  {
    size > 0 && trace + BufferLevels(buffered, unread, sensor, k, size) == total
  }

  lemma TraceStep(trace: seq<(nat, nat)>, buffered: nat, unread: nat, sensor: nat -> Reading, k: nat,
                  size: nat, total: seq<(nat, nat)>)
    requires unread > 0 && TraceGoesOn(trace, buffered, unread, sensor, k, size, total)
    ensures var physical := PhysicalSize(sensor(k));
            var n := if physical <= unread then physical else unread;
            TraceGoesOn(trace + [(buffered + n, physical)], Carried(buffered + n, size),
                        unread - n, sensor, k + 1, size, total)
  {
    var physical := PhysicalSize(sensor(k));
    var n := if physical <= unread then physical else unread;
    var rest := BufferLevels(Carried(buffered + n, size), unread - n, sensor, k + 1, size);
    assert trace + ([(buffered + n, physical)] + rest) == (trace + [(buffered + n, physical)]) + rest;
  }

  lemma TraceDone(trace: seq<(nat, nat)>, buffered: nat, sensor: nat -> Reading, k: nat,
                  size: nat, total: seq<(nat, nat)>)
    requires TraceGoesOn(trace, buffered, 0, sensor, k, size, total)
    ensures trace == total
  {
  }

  lemma LessOneChunk(n: nat, size: nat)
    requires 0 < size <= n
    ensures Carried(n - size, size) == Carried(n, size)
  {
    var q, r := n / size, n % size;
    assert n - size == (q - 1) * size + r;
    DivModUnique(size, n - size, q - 1, r);
  }

  lemma LessThanChunk(n: nat, size: nat)
    requires n < size
    ensures Carried(n, size) == n
  {
    DivModUnique(size, n, 0, n);
  }

  /** Full chunks yielded so far, then the buffer, then what is still unread, make up the data. */
  ghost predicate Pending(chunks: seq<Bytes>, buffer: Bytes, rest: Bytes, data: Bytes, size: nat) {
    && Flatten(chunks) + buffer + rest == data
    && forall i :: 0 <= i < |chunks| ==> |chunks[i]| == size
  }

  lemma StreamStarts(buffer: Bytes, file: Bytes, sensor: nat -> Reading, size: nat)
    requires size > 0
    ensures Pending([], buffer, file[0..], buffer + file, size)
    ensures TraceGoesOn([], |buffer|, |file|, sensor, 0, size, BufferLevels(|buffer|, |file|, sensor, 0, size))
  {
    assert [] + buffer + file[0..] == buffer + file;
  }

  lemma ReadAtExact(file: Bytes, position: nat, n: nat)
    requires position <= |file|
    ensures var chunk := ReadAt(file, position, n);
            && |chunk| == (if n <= |file| - position then n else |file| - position)
            && position + |chunk| <= |file|
            && chunk == file[position..position + |chunk|]
  {
  }

  lemma PhysicalSizePositive(reading: Reading)
    ensures PhysicalSize(reading) >= 16384
  {
  }

  /** A read that brings something. */
  lemma StreamStep(chunks: seq<Bytes>, buffer: Bytes, chunk: Bytes, file: Bytes, position: nat, data: Bytes,
                   trace: seq<(nat, nat)>, sensor: nat -> Reading, k: nat, size: nat, total: seq<(nat, nat)>)
    requires position <= |file| && chunk == ReadAt(file, position, PhysicalSize(sensor(k))) && chunk != []
    requires Pending(chunks, buffer, file[position..], data, size)
    requires TraceGoesOn(trace, |buffer|, |file| - position, sensor, k, size, total)
    ensures position + |chunk| <= |file|
    ensures Pending(chunks, buffer + chunk, file[position + |chunk|..], data, size)
    ensures TraceGoesOn(trace + [(|buffer + chunk|, PhysicalSize(sensor(k)))], Carried(|buffer + chunk|, size),
                        |file| - (position + |chunk|), sensor, k + 1, size, total)
  {
    ReadAtExact(file, position, PhysicalSize(sensor(k)));
    hide *;
    TraceStep(trace, |buffer|, |file| - position, sensor, k, size, total);
    MoreBuffered(chunks, buffer, chunk, file, position, data, size);
  }

  /** The read at the end of the file. */
  lemma StreamEnds(chunks: seq<Bytes>, buffer: Bytes, file: Bytes, position: nat, data: Bytes,
                   trace: seq<(nat, nat)>, sensor: nat -> Reading, k: nat, size: nat, total: seq<(nat, nat)>)
    requires position <= |file| && ReadAt(file, position, PhysicalSize(sensor(k))) == [] && |buffer| < size
    requires Pending(chunks, buffer, file[position..], data, size)
    requires TraceGoesOn(trace, |buffer|, |file| - position, sensor, k, size, total)
    ensures FixedSplit(data, size) == if buffer != [] then chunks + [buffer] else chunks
    ensures trace == total
  {
    PhysicalSizePositive(sensor(k));
    ReadAtExact(file, position, PhysicalSize(sensor(k)));
    Finished(chunks, buffer, file[position..], data, size);
    TraceDone(trace, |buffer|, sensor, k, size, total);
  }

  lemma MoreBuffered(chunks: seq<Bytes>, buffer: Bytes, chunk: Bytes, file: Bytes,
                     position: nat, data: Bytes, size: nat)
    requires position + |chunk| <= |file| && chunk == file[position..position + |chunk|]
    requires Pending(chunks, buffer, file[position..], data, size)
    ensures Pending(chunks, buffer + chunk, file[position + |chunk|..], data, size)
  {
    assert file[position..] == chunk + file[position + |chunk|..];
    assert Flatten(chunks) + (buffer + chunk) + file[position + |chunk|..]
        == Flatten(chunks) + buffer + (chunk + file[position + |chunk|..]);
  }

  lemma OneYielded(chunks: seq<Bytes>, buffer: Bytes, rest: Bytes, data: Bytes, size: nat)
    requires size <= |buffer| && Pending(chunks, buffer, rest, data, size)
    ensures Pending(chunks + [buffer[..size]], buffer[size..], rest, data, size)
  {
    FlattenAppend(chunks, buffer[..size]);
    assert buffer[..size] + buffer[size..] == buffer;
    assert Flatten(chunks) + buffer[..size] + buffer[size..] + rest == Flatten(chunks) + buffer + rest;
  }

  lemma Finished(chunks: seq<Bytes>, buffer: Bytes, rest: Bytes, data: Bytes, size: nat)
    requires 0 < size && |buffer| < size && rest == [] && Pending(chunks, buffer, rest, data, size)
    ensures FixedSplit(data, size) == if buffer != [] then chunks + [buffer] else chunks
  {
    var all := if buffer != [] then chunks + [buffer] else chunks;
    FlattenAppend(chunks, buffer);
    assert Flatten(all) == data;
    FixedSplitUnique(all, data, size);
  }

  // ---- process_file_for_storage ----

  /** The header root of a file is the root of its fixed-size chunks: the sensor plays no part. */
  method ProcessFileForStorage(H: HashFunction, encode: Bytes -> string, file: Bytes, sensor: nat -> Reading)
      returns (root: string)
    ensures IsRootHash(H, encode, FixedSplit(file, 65536), root)
    ensures file == [] ==> root == ""
  {
    var chunker := new BufferedAdaptiveChunker(LOGICAL_SIZE);
    var tree := new MerkleTree(H, encode);
    ghost var trace;
    var chunks: seq<Bytes>;
    chunks, trace := chunker.ProcessStream(file, sensor);
    var k := 0;
    while k < |chunks|
      invariant 0 <= k <= |chunks| && fresh(tree) && tree.Growing()
      invariant tree.chunks == chunks[..k]
    {
      tree.AddChunk(chunks[k]);
      k := k + 1;
    }
    assert chunks[..k] == chunks && [] + file == file;
    tree.Build();
    root := tree.GetRootHash();
  }

  /** So one file has one header root, */
  lemma HeaderRootUnique(H: HashFunction, encode: Bytes -> string, file: Bytes, r: string, s: string)
    requires IsRootHash(H, encode, FixedSplit(file, LOGICAL_SIZE), r)
    requires IsRootHash(H, encode, FixedSplit(file, LOGICAL_SIZE), s)
    ensures r == s
  {
    var chunks := FixedSplit(file, LOGICAL_SIZE);
    if chunks != [] {
      var t :| IsTop(|chunks|, t) && r == encode(Node(H, chunks, t, 0));
      var u :| IsTop(|chunks|, u) && s == encode(Node(H, chunks, u, 0));
      TopUnique(|chunks|, t, u);
    }
  }

  /** and files of one length with one header root are the same file, or the strings that
      RootCollision finds collide. */
  lemma {:induction false} HeaderRootBinding(H: HashFunction, encode: Bytes -> string, f: Bytes, g: Bytes, root: string)
    requires FixedSize(H) && Injective(encode) && |f| == |g|
    requires IsRootHash(H, encode, FixedSplit(f, LOGICAL_SIZE), root)
    requires IsRootHash(H, encode, FixedSplit(g, LOGICAL_SIZE), root)
    ensures f == g || IsCollision(H, RootCollision(H, FixedSplit(f, LOGICAL_SIZE), FixedSplit(g, LOGICAL_SIZE)))
  {
    var c, d := FixedSplit(f, LOGICAL_SIZE), FixedSplit(g, LOGICAL_SIZE);
    SameCount(f, g, LOGICAL_SIZE);
    RootHashBinding(H, encode, c, d, root);
    FixedSplitUnique(c, f, LOGICAL_SIZE);
    FixedSplitUnique(d, g, LOGICAL_SIZE);
  }

  lemma {:induction false} SameCount(f: Bytes, g: Bytes, size: nat)
    requires size > 0 && |f| == |g|
    ensures |FixedSplit(f, size)| == |FixedSplit(g, size)|
    decreases |f|
  {
    if |f| > size {
      SameCount(f[size..], g[size..], size);
    }
  }

  /** f is a file of whole chunks and g goes on after it with chunks that the tree of f repeats anyway. */
  ghost predicate ContinuesPadding(f: Bytes, g: Bytes)
    requires f != [] && g != []
  {
    var c, d := FixedSplit(f, LOGICAL_SIZE), FixedSplit(g, LOGICAL_SIZE);
    var top := Height(|c|);
    && |f| < |g| && f == g[..|f|] && |f| == |c| * LOGICAL_SIZE
    && Width(|c|, top) == 1 && Width(|d|, top) == 1
    && Padded(c, top, 0) == Padded(d, top, 0)
  }

  /** f is the 64 bytes that the root of the tree of g is the hash of. */
  ghost predicate IsTopOf(H: HashFunction, f: Bytes, g: Bytes)
    requires g != []
  {
    var d := FixedSplit(g, LOGICAL_SIZE);
    && |f| == 64 && Width(|d|, Height(|d|)) == 1
    && f == TopString(H, Padded(d, Height(|d|), 0), Height(|d|))
  }

  /** The files are equal, or the longer continues the padding of the shorter, or the shorter is the pair
      of hashes at the top of the longer's tree. */
  ghost predicate OneClass(H: HashFunction, f: Bytes, g: Bytes) {
    f == g || (f != [] && g != [] && (ContinuesPadding(f, g) || IsTopOf(H, f, g)))
  }

  /** When files share a header root: exactly if they are of one class, up to the computed collision. */
  lemma HeaderRootClasses(H: HashFunction, encode: Bytes -> string, f: Bytes, g: Bytes, root: string)
    requires FixedSize(H) && Injective(encode) && encode([]) == "" && |f| <= |g|
    requires IsRootHash(H, encode, FixedSplit(g, LOGICAL_SIZE), root)
    ensures OneClass(H, f, g) ==> IsRootHash(H, encode, FixedSplit(f, LOGICAL_SIZE), root)
    ensures IsRootHash(H, encode, FixedSplit(f, LOGICAL_SIZE), root) ==>
              OneClass(H, f, g)
              || IsCollision(H, RootCollision(H, FixedSplit(f, LOGICAL_SIZE), FixedSplit(g, LOGICAL_SIZE)))
  {
    hide RootCollision, ContinuesPadding, IsTopOf, Node;
    var c, d := FixedSplit(f, LOGICAL_SIZE), FixedSplit(g, LOGICAL_SIZE);
    if g != [] {
      RootHashTop(H, encode, d, root);
      NodeSize(H, d, Height(|d|));
      assert root != "";
      if f != [] && IsRootHash(H, encode, c, root) {
        RootHashTop(H, encode, c, root);
        CountMonotone(f, g, LOGICAL_SIZE);
        HeightMonotone(|c|, |d|);
        if Height(|c|) < Height(|d|) {
          ShallowFile(H, f, g);
        } else {
          LevelFiles(H, f, g);
        }
      }
      if f != g && OneClass(H, f, g) {
        OneClassOneRoot(H, f, g);
        HeightIsTop(|c|);
      }
    }
  }

  lemma OneClassOneRoot(H: HashFunction, f: Bytes, g: Bytes)
    requires FixedSize(H) && f != [] && g != [] && |f| <= |g| && (ContinuesPadding(f, g) || IsTopOf(H, f, g))
    ensures OneRoot(H, f, g)
  {
    var c, d := FixedSplit(f, LOGICAL_SIZE), FixedSplit(g, LOGICAL_SIZE);
    HeightIsTop(|c|);
    HeightIsTop(|d|);
    var s, t := Height(|c|), Height(|d|);
    if ContinuesPadding(f, g) {
      CountMonotone(f, g, LOGICAL_SIZE);
      HeightMonotone(|c|, |d|);
      assert t == s;
      PreimagesOfLeaves(H, Padded(d, t, 0), t);
      RootsAcrossHeights(H, c, s, d, t);
    } else {
      assert c == [f] && s == 0;
      assert Padded(c, 0, 0) == [f] == DeepStrings(H, d, t, 0);
      RootsAcrossHeights(H, c, 0, d, t);
    }
  }

  lemma NodeSize(H: HashFunction, chunks: seq<Bytes>, top: nat)
    requires FixedSize(H) && Width(|chunks|, top) == 1
    ensures |Node(H, chunks, top, 0)| == 32
  {
  }

  lemma {:induction false} CountMonotone(f: Bytes, g: Bytes, size: nat)
    requires size > 0 && |f| <= |g|
    ensures |FixedSplit(f, size)| <= |FixedSplit(g, size)|
    decreases |f|
  {
    if |f| > size {
      CountMonotone(f[size..], g[size..], size);
    }
  }

  ghost predicate OneRoot(H: HashFunction, f: Bytes, g: Bytes)
    requires f != [] && g != []
  {
    var c, d := FixedSplit(f, LOGICAL_SIZE), FixedSplit(g, LOGICAL_SIZE);
    && Width(|c|, Height(|c|)) == 1 && Width(|d|, Height(|d|)) == 1
    && Node(H, c, Height(|c|), 0) == Node(H, d, Height(|d|), 0)
  }

  lemma ShallowFile(H: HashFunction, f: Bytes, g: Bytes)
    requires FixedSize(H) && f != [] && g != [] && OneRoot(H, f, g)
    requires Height(|FixedSplit(f, LOGICAL_SIZE)|) < Height(|FixedSplit(g, LOGICAL_SIZE)|)
    ensures IsTopOf(H, f, g)
         || IsCollision(H, RootCollision(H, FixedSplit(f, LOGICAL_SIZE), FixedSplit(g, LOGICAL_SIZE)))
  {
    var c, d := FixedSplit(f, LOGICAL_SIZE), FixedSplit(g, LOGICAL_SIZE);
    var s, t := Height(|c|), Height(|d|);
    UnequalHeights(H, c, s, d, t);
    RootsAcrossHeights(H, c, s, d, t);
    if !IsCollision(H, RootCollision(H, c, d)) {
      assert |c[0]| == 64;
      assert |f| <= LOGICAL_SIZE && c == [f];
      assert Padded(c, 0, 0) == [f];
    }
  }

  lemma LevelFiles(H: HashFunction, f: Bytes, g: Bytes)
    requires FixedSize(H) && f != [] && |f| <= |g| && OneRoot(H, f, g)
    requires Height(|FixedSplit(f, LOGICAL_SIZE)|) == Height(|FixedSplit(g, LOGICAL_SIZE)|)
    ensures f == g || ContinuesPadding(f, g)
         || IsCollision(H, RootCollision(H, FixedSplit(f, LOGICAL_SIZE), FixedSplit(g, LOGICAL_SIZE)))
  {
    var c, d := FixedSplit(f, LOGICAL_SIZE), FixedSplit(g, LOGICAL_SIZE);
    var top := Height(|c|);
    PreimagesOfLeaves(H, Padded(d, top, 0), top);
    RootsAcrossHeights(H, c, top, d, top);
    if !IsCollision(H, RootCollision(H, c, d)) {
      PaddedPrefix(c, top);
      PaddedPrefix(d, top);
      CountMonotone(f, g, LOGICAL_SIZE);
      assert c == d[..|c|];
      PrefixFiles(f, g, LOGICAL_SIZE);
    }
  }

  /** A file whose chunks are the first chunks of another is that other or a whole number of them. */
  lemma PrefixFiles(f: Bytes, g: Bytes, size: nat)
    requires size > 0
    requires var c, d := FixedSplit(f, size), FixedSplit(g, size); |c| <= |d| && c == d[..|c|]
    ensures f == g || (|f| < |g| && f == g[..|f|] && |f| == |FixedSplit(f, size)| * size)
  {
    hide FixedSplit, Flatten, IsFixedSplit;
    FixedSplitUnique(FixedSplit(f, size), f, size);
    FixedSplitUnique(FixedSplit(g, size), g, size);
    PrefixParts(FixedSplit(f, size), FixedSplit(g, size), f, g, size);
  }

  lemma PrefixParts(c: seq<Bytes>, d: seq<Bytes>, f: Bytes, g: Bytes, size: nat)
    requires IsFixedSplit(c, f, size) && IsFixedSplit(d, g, size) && |c| <= |d| && c == d[..|c|]
    ensures f == g || (|f| < |g| && f == g[..|f|] && |f| == |c| * size)
  {
    hide Flatten;
    if |c| < |d| {
      MoreParts(c, d, size);
    } else {
      assert c == d;
    }
  }

  lemma MoreParts(c: seq<Bytes>, d: seq<Bytes>, size: nat)
    requires |c| < |d| && c == d[..|c|] && d[|d| - 1] != []
    requires forall i :: 0 <= i < |d| - 1 ==> |d[i]| == size
    ensures var f, g := Flatten(c), Flatten(d);
            |f| < |g| && f == g[..|f|] && |f| == |c| * size
  {
    hide Flatten;
    var rest := d[|c|..];
    assert d == c + rest;
    FlattenSplit(c, rest);
    forall i | 0 <= i < |c| ensures |c[i]| == size {
      assert c[i] == d[i];
    }
    FlattenFull(c, size);
    assert rest[|rest| - 1] == d[|d| - 1];
    LastPart(rest);
  }

  lemma {:induction false} FlattenSplit(a: seq<Bytes>, b: seq<Bytes>)
    ensures Flatten(a + b) == Flatten(a) + Flatten(b)
  {
    hide Flatten;
    if a == [] {
      assert a + b == b;
      FlattenNothing<Byte>();
    } else {
      FlattenSplit(a[1..], b);
      assert (a + b)[1..] == a[1..] + b;
      FlattenHead(a);
      FlattenHead(a + b);
      Associative(a[0], Flatten(a[1..]), Flatten(b));
    }
  }

  lemma Associative(a: Bytes, b: Bytes, c: Bytes)
    ensures (a + b) + c == a + (b + c)
  {
  }

  lemma {:induction false} FlattenFull(chunks: seq<Bytes>, size: nat)
    requires forall i :: 0 <= i < |chunks| ==> |chunks[i]| == size
    ensures |Flatten(chunks)| == |chunks| * size
  {
    if chunks != [] {
      FlattenFull(chunks[1..], size);
      assert (|chunks| - 1) * size + size == |chunks| * size;
    }
  }
}
