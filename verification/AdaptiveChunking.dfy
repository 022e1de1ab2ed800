/** koot/storage/chunking/engine.py: the chunker for secrets in memory, whose chunk size ramps
    up while reads are stable. Its chunk boundaries depend on the host; its output does not. */
module AdaptiveChunking {
  import opened Bytes

  const BASE_MIN: int := 16384
  const BASE_MAX: int := 65536
  const BOOSTED_MAX: int := 1048576
  const RAMP_UP: nat := 10

  /** What one evaluation sees: an active chunk size override, the telemetry's free memory ratio if
      there is telemetry, and the sensor's verdict. */
  datatype Host = Host(override: Option<int>, ramRatio: Option<real>, memoryLow: bool)

  /** The two fields of the chunker and, as a history variable, the reads since memory was last low. */
  datatype Ramp = Ramp(currentChunk: int, stableReads: nat, sinceLow: nat)

  function Evaluate(r: Ramp, host: Host): Ramp {
    if host.override.Some? then r.(currentChunk := host.override.value)
    else
      var dynamicMax := if host.ramRatio.Some? && host.ramRatio.value > 0.7 then BOOSTED_MAX else BASE_MAX;
      if host.memoryLow then Ramp(BASE_MIN, 0, 0)
      else if r.stableReads >= RAMP_UP && r.currentChunk < dynamicMax then
        r.(currentChunk := if r.currentChunk * 2 < dynamicMax then r.currentChunk * 2 else dynamicMax, stableReads := 0)
      else r
  }

  function AfterRead(r: Ramp): Ramp { r.(stableReads := r.stableReads + 1, sinceLow := r.sinceLow + 1) }

  /** stream.read: everything for a negative size, else at most that many bytes. */
  function Read(data: Bytes, n: int): Bytes {
    if n < 0 || n >= |data| then data else data[..n]
  }

  /** The chunks of data, evaluation by evaluation from the k-th. */
  function Chunks(data: Bytes, r: Ramp, host: nat -> Host, k: nat): seq<Bytes>
    decreases |data|
  {
    var r1 := Evaluate(r, host(k));
    var chunk := Read(data, r1.currentChunk);
    if chunk == [] then [] else [chunk] + Chunks(data[|chunk|..], AfterRead(r1), host, k + 1)
  }

  /** The ramp once the stream has ended. */
  function FinalRamp(data: Bytes, r: Ramp, host: nat -> Host, k: nat): Ramp
    decreases |data|
  {
    var r1 := Evaluate(r, host(k));
    var chunk := Read(data, r1.currentChunk);
    if chunk == [] then r1 else FinalRamp(data[|chunk|..], AfterRead(r1), host, k + 1)
  }

  ghost predicate NeverZero(r: Ramp, host: nat -> Host) {
    r.currentChunk != 0 && forall k :: host(k).override != Some(0)
  }

  lemma StaysNonzero(r: Ramp, host: nat -> Host, k: nat)
    requires NeverZero(r, host)
    ensures r.currentChunk != 0 && Evaluate(r, host(k)).currentChunk != 0
    ensures NeverZero(Evaluate(r, host(k)), host) && NeverZero(AfterRead(Evaluate(r, host(k))), host)
  {
  }

  /** Unless a chunk size of zero comes up, nothing is lost: the chunks are nonempty pieces of the
      data, in order, all of it, for every host. */
  lemma {:induction false} NothingLost(data: Bytes, r: Ramp, host: nat -> Host, k: nat)
    requires NeverZero(r, host)
    ensures Flatten(Chunks(data, r, host, k)) == data
    ensures forall i :: 0 <= i < |Chunks(data, r, host, k)| ==> Chunks(data, r, host, k)[i] != []
    ensures NeverZero(FinalRamp(data, r, host, k), host)
    decreases |data|
  {
    hide *;
    StaysNonzero(r, host, k);
    var r1 := Evaluate(r, host(k));
    var chunk := Read(data, r1.currentChunk);
    ReadsSome(data, r1.currentChunk);
    ChunksStep(data, r, host, k);
    if chunk == [] {
      FlattenNothing<Byte>();
    } else {
      NothingLost(data[|chunk|..], AfterRead(r1), host, k + 1);
      FlattenHead(Chunks(data, r, host, k));
    }
  }

  lemma ReadsSome(data: Bytes, n: int)
    ensures |Read(data, n)| <= |data| && Read(data, n) + data[|Read(data, n)|..] == data
    ensures n != 0 && data != [] ==> Read(data, n) != []
  {
  }

  lemma ChunksStep(data: Bytes, r: Ramp, host: nat -> Host, k: nat)
    ensures var r1 := Evaluate(r, host(k));
            var chunk := Read(data, r1.currentChunk);
            if chunk == [] then Chunks(data, r, host, k) == [] && FinalRamp(data, r, host, k) == r1
            else
              && |chunk| <= |data|
              && Chunks(data, r, host, k) == [chunk] + Chunks(data[|chunk|..], AfterRead(r1), host, k + 1)
              && FinalRamp(data, r, host, k) == FinalRamp(data[|chunk|..], AfterRead(r1), host, k + 1)
  {
  }

  // ---- Exactly when something is lost ----

  /** The ramp at the j-th evaluation from the k-th, were there data enough to read. */
  function RampAt(r: Ramp, host: nat -> Host, k: nat, j: nat): Ramp
    decreases j
  {
    var r1 := Evaluate(r, host(k));
    if j == 0 then r1 else RampAt(AfterRead(r1), host, k + 1, j - 1)
  }

  function SizeAt(r: Ramp, host: nat -> Host, k: nat, j: nat): int { RampAt(r, host, k, j).currentChunk }

  /** The first j reads would take all of n bytes; a read of negative size takes everything. */
  predicate Drained(r: Ramp, host: nat -> Host, k: nat, j: nat, n: nat)
    decreases j
  {
    n == 0 ||
      (j > 0 &&
       var size := Evaluate(r, host(k)).currentChunk;
       size < 0 || Drained(AfterRead(Evaluate(r, host(k))), host, k + 1, j - 1, if size >= n then 0 else n - size))
  }

  /** Every size of zero comes after the data has been read. */
  ghost predicate ZeroOnlyAfter(r: Ramp, host: nat -> Host, k: nat, n: nat) {
    forall j: nat :: SizeAt(r, host, k, j) == 0 ==> Drained(r, host, k, j, n)
  }

  /** One evaluation earlier. */
  lemma Shift(r: Ramp, host: nat -> Host, k: nat, j: nat, n: nat)
    requires n > 0 && j > 0
    ensures var r1 := Evaluate(r, host(k));
            var left := if r1.currentChunk < 0 || r1.currentChunk >= n then 0 else n - r1.currentChunk;
            && SizeAt(r, host, k, j) == SizeAt(AfterRead(r1), host, k + 1, j - 1)
            && Drained(r, host, k, j, n) == Drained(AfterRead(r1), host, k + 1, j - 1, left)
  {
  }

  lemma ZeroOnlyAfterStep(r: Ramp, host: nat -> Host, k: nat, n: nat)
    requires n > 0 && Evaluate(r, host(k)).currentChunk != 0
    ensures var r1 := Evaluate(r, host(k));
            var left := if r1.currentChunk < 0 || r1.currentChunk >= n then 0 else n - r1.currentChunk;
            ZeroOnlyAfter(r, host, k, n) <==> ZeroOnlyAfter(AfterRead(r1), host, k + 1, left)
  {
    var r1 := Evaluate(r, host(k));
    var left := if r1.currentChunk < 0 || r1.currentChunk >= n then 0 else n - r1.currentChunk;
    var r2, k1 := AfterRead(r1), k + 1;
    if ZeroOnlyAfter(r, host, k, n) {
      forall j: nat | SizeAt(r2, host, k1, j) == 0 ensures Drained(r2, host, k1, j, left) {
        Shift(r, host, k, j + 1, n);
      }
    }
    if ZeroOnlyAfter(r2, host, k1, left) {
      forall j: nat | SizeAt(r, host, k, j) == 0 ensures Drained(r, host, k, j, n) {
        if j > 0 {
          Shift(r, host, k, j, n);
        }
      }
    }
  }

  /** The chunks make up the data exactly when no zero size comes up before the data has been read. */
  lemma {:induction false} LostExactly(data: Bytes, r: Ramp, host: nat -> Host, k: nat)
    ensures Flatten(Chunks(data, r, host, k)) == data <==> ZeroOnlyAfter(r, host, k, |data|)
    decreases |data|
  {
    var r1 := Evaluate(r, host(k));
    var chunk := Read(data, r1.currentChunk);
    if data == [] {
    } else if r1.currentChunk == 0 {
      assert SizeAt(r, host, k, 0) == 0;
      assert !Drained(r, host, k, 0, |data|);
    } else {
      var rest := data[|chunk|..];
      LostExactly(rest, AfterRead(r1), host, k + 1);
      ZeroOnlyAfterStep(r, host, k, |data|);
      var tail := Flatten(Chunks(rest, AfterRead(r1), host, k + 1));
      assert Flatten(Chunks(data, r, host, k)) == chunk + tail;
      assert chunk + rest == data;
      assert chunk + tail == data ==> tail == (chunk + tail)[|chunk|..] == rest;
    }
  }

  ghost predicate LosesNothing(r: Ramp, host: nat -> Host, k: nat) {
    forall data: Bytes :: Flatten(Chunks(data, r, host, k)) == data
  }

  ghost predicate NegativeBefore(r: Ramp, host: nat -> Host, k: nat, j: nat) {
    exists i: nat :: i < j && SizeAt(r, host, k, i) < 0
  }

  /** Over all data: nothing is ever lost exactly when every size of zero follows a negative one. */
  lemma NeverLostExactly(r: Ramp, host: nat -> Host, k: nat)
    ensures LosesNothing(r, host, k) <==>
              forall j: nat :: SizeAt(r, host, k, j) == 0 ==> NegativeBefore(r, host, k, j)
  {
    if j: nat :| SizeAt(r, host, k, j) == 0 && !NegativeBefore(r, host, k, j) {
      var n := NotDrained(r, host, k, j);
      var data: Bytes := seq(n, _ => 0);
      LostExactly(data, r, host, k);
      assert !ZeroOnlyAfter(r, host, k, |data|);
    } else {
      forall data: Bytes ensures Flatten(Chunks(data, r, host, k)) == data {
        forall j: nat | SizeAt(r, host, k, j) == 0 ensures Drained(r, host, k, j, |data|) {
          assert NegativeBefore(r, host, k, j);
          var i: nat :| i < j && SizeAt(r, host, k, i) < 0;
          NegativeDrains(r, host, k, i, j, |data|);
        }
        LostExactly(data, r, host, k);
      }
    }
  }

  lemma {:induction false} NegativeDrains(r: Ramp, host: nat -> Host, k: nat, i: nat, j: nat, n: nat)
    requires i < j && SizeAt(r, host, k, i) < 0
    ensures Drained(r, host, k, j, n)
    decreases i
  {
    var r1 := Evaluate(r, host(k));
    if i > 0 && r1.currentChunk >= 0 {
      NegativeDrains(AfterRead(r1), host, k + 1, i - 1, j - 1, if r1.currentChunk >= n then 0 else n - r1.currentChunk);
    }
  }

  /** Reads of nonnegative size leave some data unread. */
  lemma {:induction false} NotDrained(r: Ramp, host: nat -> Host, k: nat, j: nat) returns (n: nat)
    requires !NegativeBefore(r, host, k, j)
    ensures n > 0 && !Drained(r, host, k, j, n)
    decreases j
  {
    if j == 0 {
      n := 1;
    } else {
      var r1 := Evaluate(r, host(k));
      assert SizeAt(r, host, k, 0) >= 0;
      var r2, k1 := AfterRead(r1), k + 1;
      if NegativeBefore(r2, host, k1, j - 1) {
        var i: nat :| i < j - 1 && SizeAt(r2, host, k1, i) < 0;
        Shift(r, host, k, i + 1, 1);
        assert NegativeBefore(r, host, k, j);
      }
      var m := NotDrained(r2, host, k1, j - 1);
      n := m + r1.currentChunk;
    }
  }

  /** And a size of zero stays: until memory runs low or an override comes, every later evaluation
      finds it. */
  lemma {:induction false} ZeroPersists(r: Ramp, host: nat -> Host, k: nat, j: nat)
    requires r.currentChunk == 0
    requires forall i: nat :: k <= i <= k + j ==> host(i).override.None? && !host(i).memoryLow
    ensures SizeAt(r, host, k, j) == 0
    decreases j
  {
    if j > 0 {
      ZeroPersists(AfterRead(Evaluate(r, host(k))), host, k + 1, j - 1);
    }
  }

  // ---- What the host decides ----

  lemma {:induction false} RampAtLast(r: Ramp, host: nat -> Host, k: nat, j: nat)
    requires j > 0
    ensures RampAt(r, host, k, j) == Evaluate(AfterRead(RampAt(r, host, k, j - 1)), host(k + j))
    decreases j
  {
    hide Evaluate, AfterRead;
    if j > 1 {
      RampAtLast(AfterRead(Evaluate(r, host(k))), host, k + 1, j - 1);
    }
  }

  /** An override is the size of its evaluation; without one, low memory brings the size down to 16 KB. */
  lemma OverrideAndLowMemory(r: Ramp, host: nat -> Host, k: nat, j: nat)
    ensures host(k + j).override.Some? ==> SizeAt(r, host, k, j) == host(k + j).override.value
    ensures host(k + j).override.None? && host(k + j).memoryLow ==> RampAt(r, host, k, j) == Ramp(16384, 0, 0)
  {
    if j > 0 {
      RampAtLast(r, host, k, j);
    }
  }

  /** The reads between evaluation j and the last before it that found memory low, or with the reads before the
      first if none did: a matter of the host alone. */
  function ReadsSinceLow(host: nat -> Host, k: nat, j: nat, before: nat): nat {
    if host(k + j).override.None? && host(k + j).memoryLow then 0
    else if j == 0 then before
    else 1 + ReadsSinceLow(host, k, j - 1, before)
  }

  /** The history variable counts just those. */
  lemma {:induction false} SinceLowExact(r: Ramp, host: nat -> Host, k: nat, j: nat)
    ensures RampAt(r, host, k, j).sinceLow == ReadsSinceLow(host, k, j, r.sinceLow)
  {
    if j > 0 {
      SinceLowExact(r, host, k, j - 1);
      RampAtLast(r, host, k, j);
    }
  }

  /** After an evaluation that found memory low the ramp starts over: on a host that is steady from then on
      the size of the n-th read is that of a new chunker. */
  lemma {:induction false} RampsAnewAfterLow(r: Ramp, host: nat -> Host, k: nat, a: nat, n: nat, steady: Host)
    requires host(k + a).override.None? && host(k + a).memoryLow
    requires steady.override.None? && !steady.memoryLow
    requires forall i: nat :: k + a < i <= k + a + n ==> host(i) == steady
    ensures RampAt(r, host, k, a + n) == SteadyRamp(steady, n)
  {
    if n == 0 {
      OverrideAndLowMemory(r, host, k, a);
    } else {
      RampsAnewAfterLow(r, host, k, a, n - 1, steady);
      RampAtLast(r, host, k, a + n);
    }
  }

  // ---- How fast it ramps ----

  /** The size is 16384 doubled j times, each doubling paid for by ten reads since memory was last
      low; j is at most six, and at most two while there is no telemetry. */
  ghost predicate Ramped(r: Ramp, telemetry: bool) {
    exists j: nat :: DoubledTimes(r, j) && j <= (if telemetry then 6 else 2)
      && RAMP_UP * j + r.stableReads <= r.sinceLow
  }

  ghost predicate DoubledTimes(r: Ramp, j: nat) { r.currentChunk == BASE_MIN * Pow2(j) }

  lemma EvaluateRamped(r: Ramp, host: Host, telemetry: bool)
    requires Ramped(r, telemetry) && host.override.None? && (telemetry || host.ramRatio.None?)
    ensures Ramped(Evaluate(r, host), telemetry)
  {
    var j: nat :| DoubledTimes(r, j) && j <= (if telemetry then 6 else 2) && RAMP_UP * j + r.stableReads <= r.sinceLow;
    var r1 := Evaluate(r, host);
    assert Pow2(0) == 1 && Pow2(1) == 2 && Pow2(2) == 4 && Pow2(3) == 8;
    assert Pow2(4) == 16 && Pow2(5) == 32 && Pow2(6) == 64;
    if host.memoryLow {
      assert DoubledTimes(r1, 0);
    } else if r1 != r {
      assert DoubledTimes(r1, j + 1);
    } else {
      assert DoubledTimes(r1, j);
    }
  }

  lemma ReadRamped(r: Ramp, telemetry: bool)
    requires Ramped(r, telemetry)
    ensures Ramped(AfterRead(r), telemetry)
  {
    var j: nat :| DoubledTimes(r, j) && j <= (if telemetry then 6 else 2) && RAMP_UP * j + r.stableReads <= r.sinceLow;
    assert DoubledTimes(AfterRead(r), j);
  }

  /** With no override, every stream on every host leaves the size on that ramp. */
  lemma {:induction false} StreamRamped(data: Bytes, r: Ramp, host: nat -> Host, k: nat, telemetry: bool)
    requires Ramped(r, telemetry)
    requires forall i :: host(i).override.None? && (telemetry || host(i).ramRatio.None?)
    ensures Ramped(FinalRamp(data, r, host, k), telemetry)
    decreases |data|
  {
    hide Evaluate, Ramped;
    var r1 := Evaluate(r, host(k));
    var chunk := Read(data, r1.currentChunk);
    EvaluateRamped(r, host(k), telemetry);
    if chunk != [] {
      ReadRamped(r1, telemetry);
      StreamRamped(data[|chunk|..], AfterRead(r1), host, k + 1, telemetry);
    }
  }

  /** And every read of the stream has such a size: each chunk but the last has exactly the size of its
      evaluation, and the last at most that. */
  lemma {:induction false} ChunksRamped(data: Bytes, r: Ramp, host: nat -> Host, k: nat, telemetry: bool, i: nat)
    requires Ramped(r, telemetry) && i < |Chunks(data, r, host, k)|
    requires forall l :: host(l).override.None? && (telemetry || host(l).ramRatio.None?)
    ensures Ramped(RampAt(r, host, k, i), telemetry)
    ensures |Chunks(data, r, host, k)[i]| <= SizeAt(r, host, k, i)
    ensures i < |Chunks(data, r, host, k)| - 1 ==> |Chunks(data, r, host, k)[i]| == SizeAt(r, host, k, i)
    decreases |data|
  {
    hide Evaluate, Ramped, AfterRead;
    var r1 := Evaluate(r, host(k));
    var chunk := Read(data, r1.currentChunk);
    EvaluateRamped(r, host(k), telemetry);
    RampedPositive(r1, telemetry);
    ReadRamped(r1, telemetry);
    if i > 0 {
      ChunksRamped(data[|chunk|..], AfterRead(r1), host, k + 1, telemetry, i - 1);
    } else if r1.currentChunk >= |data| {
      assert data[|chunk|..] == [];
      NoDataNoChunks(AfterRead(r1), host, k + 1);
    }
  }

  lemma RampedPositive(r: Ramp, telemetry: bool)
    requires Ramped(r, telemetry)
    ensures r.currentChunk >= BASE_MIN
  {
    var j: nat :| DoubledTimes(r, j);
    assert BASE_MIN * Pow2(j) >= BASE_MIN;
  }

  lemma NoDataNoChunks(r: Ramp, host: nat -> Host, k: nat)
    ensures Chunks([], r, host, k) == []
  {
  }

  /** The ramp of a fresh chunker at its k-th evaluation when the host is always the same. */
  function SteadyRamp(host: Host, k: nat): Ramp {
    Evaluate(if k == 0 then Ramp(BASE_MIN, 0, 0) else AfterRead(SteadyRamp(host, k - 1)), host)
  }

  /** On a steady host, ten reads at a time, it doubles until it reaches the cap of 64 KB, or of 1 MB
      with plenty of memory: the closed form of the size of the k-th read. */
  lemma {:induction false} SteadyRampExact(host: Host, k: nat)
    requires host.override.None? && !host.memoryLow
    ensures var most := if host.ramRatio.Some? && host.ramRatio.value > 0.7 then 6 else 2;
            var j := if k / 10 < most then k / 10 else most;
            SteadyRamp(host, k) == Ramp(16384 * Pow2(j), k - 10 * j, k)
  {
    assert Pow2(0) == 1 && Pow2(1) == 2 && Pow2(2) == 4 && Pow2(3) == 8;
    assert Pow2(4) == 16 && Pow2(5) == 32 && Pow2(6) == 64;
    if k > 0 {
      SteadyRampExact(host, k - 1);
    }
  }

  class AdaptiveChunker {
    var currentChunk: int
    var stableReads: nat
    ghost var sinceLow: nat

    ghost function View(): Ramp
      reads this
    {
      Ramp(currentChunk, stableReads, sinceLow)
    }

    constructor ()
      ensures View() == Ramp(16384, 0, 0) && Ramped(View(), false)
    {
      currentChunk, stableReads, sinceLow := BASE_MIN, 0, 0;
      new;
      assert Pow2(0) == 1;
      assert DoubledTimes(View(), 0);
    }

    method EvaluateHardware(host: Host)
      modifies this
      ensures View() == Evaluate(old(View()), host)
    {
      if host.override.Some? {
        currentChunk := host.override.value;
        return;
      }
      var dynamicMax := BASE_MAX;
      if host.ramRatio.Some? {
        if host.ramRatio.value > 0.7 {
          dynamicMax := BOOSTED_MAX;
        }
      }
      if host.memoryLow {
        currentChunk := BASE_MIN;
        stableReads, sinceLow := 0, 0;
      } else if stableReads >= RAMP_UP && currentChunk < dynamicMax {
        currentChunk := if currentChunk * 2 < dynamicMax then currentChunk * 2 else dynamicMax;
        stableReads := 0;
      }
    }

    /** The generator over an in-memory payload, run to its end. */
    method ProcessBytes(payload: Bytes, host: nat -> Host) returns (chunks: seq<Bytes>)
      modifies this
      ensures chunks == Chunks(payload, old(View()), host, 0)
      ensures View() == FinalRamp(payload, old(View()), host, 0)
      ensures old(NeverZero(View(), host)) ==> Flatten(chunks) == payload && NeverZero(View(), host)
    {
      ghost var r0 := View();
      if NeverZero(r0, host) {
        NothingLost(payload, r0, host, 0);
      }
      hide *;
      chunks := [];
      var position, evaluations := 0, 0;
      StreamStarts(payload, r0, host);
      while true
        invariant 0 <= position <= |payload|
        invariant Resumes(chunks, payload[position..], View(), host, evaluations, payload, r0)
        decreases |payload| - position
      {
        var rest := payload[position..];
        ghost var before := View();
        EvaluateHardware(host(evaluations));
        var chunk := Read(rest, currentChunk);
        ReadsSome(rest, currentChunk);
        StreamStep(chunks, rest, before, host, evaluations, payload, r0);
        if chunk == [] {
          break;
        }
        stableReads, sinceLow := stableReads + 1, sinceLow + 1;
        assert rest[|chunk|..] == payload[position + |chunk|..];
        chunks := chunks + [chunk];
        position := position + |chunk|;
        evaluations := evaluations + 1;
      }
    }
  }

  /** With these chunks yielded, the stream goes on from r with rest unread. */
  ghost predicate Resumes(chunks: seq<Bytes>, rest: Bytes, r: Ramp, host: nat -> Host, k: nat,
                          payload: Bytes, r0: Ramp) {
    && chunks + Chunks(rest, r, host, k) == Chunks(payload, r0, host, 0)
    && FinalRamp(rest, r, host, k) == FinalRamp(payload, r0, host, 0)
  }

  lemma StreamStarts(payload: Bytes, r0: Ramp, host: nat -> Host)
    ensures Resumes([], payload[0..], r0, host, 0, payload, r0)
  {
    assert payload[0..] == payload;
  }

  lemma StreamStep(chunks: seq<Bytes>, rest: Bytes, r: Ramp, host: nat -> Host, k: nat, payload: Bytes, r0: Ramp)
    requires Resumes(chunks, rest, r, host, k, payload, r0)
    ensures var r1 := Evaluate(r, host(k));
            var chunk := Read(rest, r1.currentChunk);
            if chunk == [] then chunks == Chunks(payload, r0, host, 0) && r1 == FinalRamp(payload, r0, host, 0)
            else Resumes(chunks + [chunk], rest[|chunk|..], AfterRead(r1), host, k + 1, payload, r0)
  {
    hide Evaluate;
    var r1 := Evaluate(r, host(k));
    var chunk := Read(rest, r1.currentChunk);
    if chunk != [] {
      var later := Chunks(rest[|chunk|..], AfterRead(r1), host, k + 1);
      assert chunks + ([chunk] + later) == (chunks + [chunk]) + later;
    }
  }
}
