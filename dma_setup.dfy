/** The DMA engine setup (DMASetup.cpp): the controller parameters
    computed for one stream from its record size, and the register writes
    that configure the I/O controllers and the crossbars, kept as a trace
    of calls on the DMA interface.  Sizes count 4-byte words. */
module DmaSetup {
  import opened Wrappers
  import opened CoreTypes

  const MAX_DDR_BURST_SIZE := 512
  const MAX_CHUNK_SIZE := 16
  const MAX_DDR_SIZE_PER_CYCLE := 4
  /** The chunk and position handed to the crossbar finder. */
  const ANY_CHUNK := 31
  const ANY_POSITION := 3
  /** Entries of a crossbar configuration vector (kDatapathWidth). */
  const DATAPATH_WIDTH := 16

  /** The selection data of one crossbar chunk: for each of the 16
      positions, the chunk and the position it takes its word from. */
  datatype CrossbarChunk = CrossbarChunk(chunkData: seq<int>, positionData: seq<int>)

  /** The setup data of one stream (DMASetupData). */
  datatype StreamSetup = StreamSetup(
    streamId: int,
    isInputStream: bool,
    recordCount: int,
    chunksPerRecord: int,
    recordChunkIds: seq<(int, int)>,
    recordsPerDdrBurst: int,
    ddrBurstLength: int,
    bufferStart: int,
    bufferEnd: int,
    streamAddress: int,
    crossbarSetupData: seq<CrossbarChunk>)

  /** A freshly declared setup record with the fields SetupDMAModule
      assigns before the calculation. */
  function NewStreamSetup(streamId: int, isInputStream: bool, recordCount: int): (r: StreamSetup)
    ensures r.streamId == streamId && r.isInputStream == isInputStream && r.recordCount == recordCount
    ensures r.recordChunkIds == [] && r.crossbarSetupData == []
  {
    StreamSetup(streamId, isInputStream, recordCount, 0, [], 0, 0, 0, 0, 0, [])
  }

  // ---------------------------------------------------------------------
  // The controller arithmetic

  /** Chunks per record: the record size divided by the chunk size,
      rounded up (C++ integer division). */
  function ChunksPerRecord(recordSize: int): int {
    TruncDiv(recordSize + MAX_CHUNK_SIZE - 1, MAX_CHUNK_SIZE)
  }

  /** A record of positive size takes the least number of 16-word chunks
      that hold it. */
  lemma ChunksPerRecordIsCeiling(recordSize: int)
    requires recordSize >= 1
    ensures ChunksPerRecord(recordSize) >= 1
    ensures 16 * (ChunksPerRecord(recordSize) - 1) < recordSize <= 16 * ChunksPerRecord(recordSize)
  {
    TruncAgreesOnNonnegative(recordSize + 15, 16);
  }

  /** The chunk id pairs (i, i) of a record's chunks. */
  function ChunkIdPairs(n: int): (r: seq<(int, int)>)
    ensures |r| == if n > 0 then n else 0
    ensures forall i :: 0 <= i < |r| ==> r[i] == (i, i)
  {
    if n <= 0 then [] else ChunkIdPairs(n - 1) + [(n - 1, n - 1)]
  }

  predicate IsPowerOfTwo(x: int)
    decreases if x > 0 then x else 0
  {
    x == 1 || (x > 1 && x % 2 == 0 && IsPowerOfTwo(x / 2))
  }

  /** `pow(2, (int) log2(n))`: the largest power of two not above `n`. */
  function LargestPowerOfTwoAtMost(n: int): (r: int)
    requires n >= 1
    ensures IsPowerOfTwo(r) && 1 <= r <= n < 2 * r
  {
    if n == 1 then 1 else 2 * LargestPowerOfTwoAtMost(n / 2)
  }

  /** Records per DDR burst, defined for record sizes 1 to 512. */
  function RecordsPerBurst(recordSize: int): int
    requires 1 <= recordSize <= MAX_DDR_BURST_SIZE
  {
    LargestPowerOfTwoAtMost(MAX_DDR_BURST_SIZE / recordSize)
  }

  /** The DDR burst length: the words of a burst's records divided by
      the words per cycle, rounded up. */
  function BurstLength(recordSize: int, recordsPerBurst: int): int {
    TruncDiv(recordSize * recordsPerBurst + MAX_DDR_SIZE_PER_CYCLE - 1, MAX_DDR_SIZE_PER_CYCLE)
  }

  /** The records of a burst fill more than half of the 512-word burst
      and never overflow it; the record count is the largest power of two
      that fits. */
  lemma RecordsPerBurstIsLargestFit(recordSize: int)
    requires 1 <= recordSize <= 512
    ensures IsPowerOfTwo(RecordsPerBurst(recordSize))
    ensures 1 <= RecordsPerBurst(recordSize) && recordSize * RecordsPerBurst(recordSize) <= 512
    ensures 512 < recordSize * (2 * RecordsPerBurst(recordSize))
  {
    var q := 512 / recordSize;
    var p := RecordsPerBurst(recordSize);
    assert p <= q < 2 * p;
    assert recordSize * q <= 512 < recordSize * (q + 1) by {
      assert 512 == recordSize * q + 512 % recordSize;
    }
    MultiplyMonotone(recordSize, p, q);
    MultiplyMonotone(recordSize, q + 1, 2 * p);
  }

  /** Proof helper: multiplication by a non-negative factor is monotone. */
  lemma MultiplyMonotone(a: int, x: int, y: int)
    requires a >= 0 && x <= y
    ensures a * x <= a * y
  {
  }

  /** The burst length is the ceiling of the burst's words over 4 words
      per cycle, between 65 and 128 cycles. */
  lemma BurstLengthBounds(recordSize: int)
    requires 1 <= recordSize <= 512
    ensures var w := recordSize * RecordsPerBurst(recordSize);
      var b := BurstLength(recordSize, RecordsPerBurst(recordSize));
      4 * (b - 1) < w <= 4 * b && 65 <= b <= 128
  {
    var w := recordSize * RecordsPerBurst(recordSize);
    RecordsPerBurstIsLargestFit(recordSize);
    TruncAgreesOnNonnegative(w + 3, 4);
  }

  // ---------------------------------------------------------------------
  // CalculateDMAStreamSetupData

  /** The setup record after the calculation.  Dividing 512 by a record
      size of 0, or taking log2 of 0 or of a negative quotient, is
      undefined. */
  function Calculated(s: StreamSetup, recordSize: int, address: int): (r: Result<StreamSetup>)
  {
    if !(1 <= recordSize <= MAX_DDR_BURST_SIZE) then Failure("Undefined")
    else
      var chunks := ChunksPerRecord(recordSize);
      var perBurst := RecordsPerBurst(recordSize);
      Success(s.(chunksPerRecord := chunks,
                 recordChunkIds := s.recordChunkIds + ChunkIdPairs(chunks),
                 recordsPerDdrBurst := perBurst,
                 ddrBurstLength := BurstLength(recordSize, perBurst),
                 bufferStart := 0,
                 bufferEnd := 15,
                 streamAddress := address))
  }

  /** What the calculation promises: it is defined exactly for record
      sizes 1 to 512; it appends the pairs (i, i) for every chunk of the
      record; the burst holds the largest power-of-two number of records
      that fits 512 words; the burst length is the ceiling over 4 words
      per cycle; the buffer spans 0 to 15; and the stream's identity,
      direction, record count and crossbar data are kept. */
  lemma CalculatedMeaning(s: StreamSetup, recordSize: int, address: int)
    ensures Calculated(s, recordSize, address).Success? <==> 1 <= recordSize <= 512
    ensures Calculated(s, recordSize, address).Failure? ==> Calculated(s, recordSize, address).error == "Undefined"
    ensures Calculated(s, recordSize, address).Success? ==>
      var t := Calculated(s, recordSize, address).value;
      16 * (t.chunksPerRecord - 1) < recordSize <= 16 * t.chunksPerRecord &&
      |t.recordChunkIds| == |s.recordChunkIds| + t.chunksPerRecord &&
      t.recordChunkIds[..|s.recordChunkIds|] == s.recordChunkIds &&
      (forall i :: 0 <= i < t.chunksPerRecord ==> t.recordChunkIds[|s.recordChunkIds| + i] == (i, i)) &&
      IsPowerOfTwo(t.recordsPerDdrBurst) &&
      recordSize * t.recordsPerDdrBurst <= 512 < recordSize * (2 * t.recordsPerDdrBurst) &&
      4 * (t.ddrBurstLength - 1) < recordSize * t.recordsPerDdrBurst <= 4 * t.ddrBurstLength &&
      t.ddrBurstLength <= 128 &&
      t.bufferStart == 0 && t.bufferEnd == 15 && t.streamAddress == address &&
      t.streamId == s.streamId && t.isInputStream == s.isInputStream && t.recordCount == s.recordCount &&
      t.crossbarSetupData == s.crossbarSetupData
  {
    if 1 <= recordSize <= 512 {
      ChunksPerRecordIsCeiling(recordSize);
      RecordsPerBurstIsLargestFit(recordSize);
      BurstLengthBounds(recordSize);
      var t := Calculated(s, recordSize, address).value;
      assert t.recordChunkIds == s.recordChunkIds + ChunkIdPairs(t.chunksPerRecord);
    }
  }

  /** The loop of CalculateDMAStreamSetupData: the pairs (0, 0) up to
      (chunks - 1, chunks - 1) appended in order. */
  method AppendChunkIdPairs(ids0: seq<(int, int)>, chunks: int) returns (ids: seq<(int, int)>)
    ensures ids == ids0 + ChunkIdPairs(chunks)
  {
    ids := ids0;
    var i := 0;
    while i < chunks
      invariant 0 <= i <= (if chunks > 0 then chunks else 0)
      invariant ids == ids0 + ChunkIdPairs(i)
    {
      ids := ids + [(i, i)];
      i := i + 1;
    }
    assert ChunkIdPairs(i) == ChunkIdPairs(chunks);
  }

  /** CalculateDMAStreamSetupData: the arithmetic, and the loop that
      appends the chunk id pairs. */
  method CalculateDmaStreamSetupData(s: StreamSetup, recordSize: int, address: int) returns (r: Result<StreamSetup>)
    ensures r == Calculated(s, recordSize, address)
  {
    var chunks := ChunksPerRecord(recordSize);
    var ids := AppendChunkIdPairs(s.recordChunkIds, chunks);
    if !(1 <= recordSize <= MAX_DDR_BURST_SIZE) {
      return Failure("Undefined");
    }
    var perBurst := LargestPowerOfTwoAtMost(MAX_DDR_BURST_SIZE / recordSize);
    var burst := BurstLength(recordSize, perBurst);
    r := Success(s.(chunksPerRecord := chunks, recordChunkIds := ids, recordsPerDdrBurst := perBurst,
                    ddrBurstLength := burst, bufferStart := 0, bufferEnd := 15, streamAddress := address));
  }

  // ---------------------------------------------------------------------
  // The register writes

  /** A call on the DMA interface; `input` tells the input controller's
      register from the output controller's. */
  datatype DmaCall =
    | SetControllerParams(input: bool, streamId: int, ddrBurstLength: int, recordsPerDdrBurst: int,
                          bufferStart: int, bufferEnd: int)
    | SetControllerStreamAddress(input: bool, streamId: int, address: int)
    | SetControllerStreamSize(input: bool, streamId: int, size: int)
    | SetRecordSize(streamId: int, chunksPerRecord: int)
    | SetRecordChunkIds(streamId: int, interfaceChunk: int, sourceChunk: int)
    | SetCrossbarChunk(input: bool, streamId: int, chunkIndex: int, offset: int, d3: int, d2: int, d1: int, d0: int)
    | SetCrossbarPosition(input: bool, streamId: int, chunkIndex: int, offset: int,
                          p3: int, p2: int, p1: int, p0: int)

  /** The chunk id writes for the first `n` pairs. */
  function ChunkIdCalls(streamId: int, pairs: seq<(int, int)>, n: nat): seq<DmaCall>
    requires n <= |pairs|
  {
    if n == 0 then [] else ChunkIdCalls(streamId, pairs, n - 1) + [SetRecordChunkIds(streamId, pairs[n - 1].0, pairs[n - 1].1)]
  }

  /** SetUpDMAIOStreams: the controller of the stream's direction, the
      record size, then one write per chunk id pair. */
  function IoCalls(s: StreamSetup): seq<DmaCall> {
    [SetControllerParams(s.isInputStream, s.streamId, s.ddrBurstLength, s.recordsPerDdrBurst, s.bufferStart, s.bufferEnd),
     SetControllerStreamAddress(s.isInputStream, s.streamId, s.streamAddress),
     SetControllerStreamSize(s.isInputStream, s.streamId, s.recordCount),
     SetRecordSize(s.streamId, s.chunksPerRecord)] +
    ChunkIdCalls(s.streamId, s.recordChunkIds, |s.recordChunkIds|)
  }

  /** The chunk id writes are the pairs, in order. */
  lemma {:induction false} ChunkIdCallsAt(streamId: int, pairs: seq<(int, int)>, n: nat, i: int)
    requires n <= |pairs| && 0 <= i < n
    ensures |ChunkIdCalls(streamId, pairs, n)| == n
    ensures ChunkIdCalls(streamId, pairs, n)[i] == SetRecordChunkIds(streamId, pairs[i].0, pairs[i].1)
  {
    if i < n - 1 {
      ChunkIdCallsAt(streamId, pairs, n - 1, i);
    } else if n > 1 {
      ChunkIdCallsAt(streamId, pairs, n - 1, 0);
    }
  }

  method SetUpDmaIoStreams(s: StreamSetup) returns (calls: seq<DmaCall>)
    ensures calls == IoCalls(s)
  {
    calls := [SetControllerParams(s.isInputStream, s.streamId, s.ddrBurstLength, s.recordsPerDdrBurst,
                                  s.bufferStart, s.bufferEnd),
              SetControllerStreamAddress(s.isInputStream, s.streamId, s.streamAddress),
              SetControllerStreamSize(s.isInputStream, s.streamId, s.recordCount),
              SetRecordSize(s.streamId, s.chunksPerRecord)];
    ghost var head := calls;
    for i := 0 to |s.recordChunkIds|
      invariant calls == head + ChunkIdCalls(s.streamId, s.recordChunkIds, i)
    {
      calls := calls + [SetRecordChunkIds(s.streamId, s.recordChunkIds[i].0, s.recordChunkIds[i].1)];
    }
  }

  /** Every crossbar entry holds its 16 chunk and 16 position selections;
      shorter vectors are read out of bounds, which is undefined. */
  predicate EntriesComplete(entries: seq<CrossbarChunk>) {
    forall i :: 0 <= i < |entries| ==> |entries[i].chunkData| >= DATAPATH_WIDTH && |entries[i].positionData| >= DATAPATH_WIDTH
  }

  /** The two writes of offset `k` of one crossbar chunk: each group of
      four selections is passed last entry first. */
  function OffsetCalls(input: bool, streamId: int, e: CrossbarChunk, chunkIndex: int, k: int): seq<DmaCall>
    requires |e.chunkData| >= 16 && |e.positionData| >= 16 && 0 <= k < 4
  {
    [SetCrossbarChunk(input, streamId, chunkIndex, k, e.chunkData[3 + k * 4], e.chunkData[2 + k * 4],
                      e.chunkData[1 + k * 4], e.chunkData[k * 4]),
     SetCrossbarPosition(input, streamId, chunkIndex, k, e.positionData[3 + k * 4], e.positionData[2 + k * 4],
                         e.positionData[1 + k * 4], e.positionData[k * 4])]
  }

  /** The writes of the first `k` offsets of one crossbar chunk. */
  function EntryCalls(input: bool, streamId: int, e: CrossbarChunk, chunkIndex: int, k: nat): (r: seq<DmaCall>)
    requires |e.chunkData| >= 16 && |e.positionData| >= 16 && k <= 4
    ensures |r| == 2 * k
  {
    if k == 0 then [] else EntryCalls(input, streamId, e, chunkIndex, k - 1) + OffsetCalls(input, streamId, e, chunkIndex, k - 1)
  }

  /** The writes of the first `n` crossbar chunks. */
  function CrossbarPrefix(input: bool, streamId: int, entries: seq<CrossbarChunk>, n: nat): (r: seq<DmaCall>)
    requires EntriesComplete(entries) && n <= |entries|
    ensures |r| == 8 * n
  {
    if n == 0 then []
    else CrossbarPrefix(input, streamId, entries, n - 1) + EntryCalls(input, streamId, entries[n - 1], n - 1, 4)
  }

  /** SetUpDMACrossbars: every chunk's four offsets, chunk by chunk. */
  function CrossbarCalls(s: StreamSetup): Result<seq<DmaCall>> {
    if !EntriesComplete(s.crossbarSetupData) then Failure("Undefined")
    else Success(CrossbarPrefix(s.isInputStream, s.streamId, s.crossbarSetupData, |s.crossbarSetupData|))
  }

  lemma {:induction false} EntryCallsAt(input: bool, streamId: int, e: CrossbarChunk, chunkIndex: int, k: nat, j: int)
    requires |e.chunkData| >= 16 && |e.positionData| >= 16 && k <= 4 && 0 <= j < k
    ensures EntryCalls(input, streamId, e, chunkIndex, k)[2 * j] == OffsetCalls(input, streamId, e, chunkIndex, j)[0]
    ensures EntryCalls(input, streamId, e, chunkIndex, k)[2 * j + 1] == OffsetCalls(input, streamId, e, chunkIndex, j)[1]
  {
    if j < k - 1 {
      EntryCallsAt(input, streamId, e, chunkIndex, k - 1, j);
    }
  }

  lemma {:induction false} CrossbarPrefixAt(input: bool, streamId: int, entries: seq<CrossbarChunk>, n: nat, c: int, j: int)
    requires EntriesComplete(entries) && n <= |entries| && 0 <= c < n && 0 <= j < 8
    ensures CrossbarPrefix(input, streamId, entries, n)[8 * c + j] == EntryCalls(input, streamId, entries[c], c, 4)[j]
  {
    if c < n - 1 {
      CrossbarPrefixAt(input, streamId, entries, n - 1, c, j);
    }
  }

  /** The crossbar writes of chunk `c`, offset `k`, are the chunk and the
      position selections of entries 3 + 4k, 2 + 4k, 1 + 4k and 4k, in
      that order, to the crossbar of the stream's direction. */
  lemma CrossbarWriteOrder(s: StreamSetup, c: int, k: int)
    requires CrossbarCalls(s).Success? && 0 <= c < |s.crossbarSetupData| && 0 <= k < 4
    ensures var w := CrossbarCalls(s).value; var e := s.crossbarSetupData[c];
      |w| == 8 * |s.crossbarSetupData| &&
      w[8 * c + 2 * k] == SetCrossbarChunk(s.isInputStream, s.streamId, c, k, e.chunkData[3 + 4 * k],
                                          e.chunkData[2 + 4 * k], e.chunkData[1 + 4 * k], e.chunkData[4 * k]) &&
      w[8 * c + 2 * k + 1] == SetCrossbarPosition(s.isInputStream, s.streamId, c, k, e.positionData[3 + 4 * k],
                                                 e.positionData[2 + 4 * k], e.positionData[1 + 4 * k], e.positionData[4 * k])
  {
    var n := |s.crossbarSetupData|;
    CrossbarPrefixAt(s.isInputStream, s.streamId, s.crossbarSetupData, n, c, 2 * k);
    CrossbarPrefixAt(s.isInputStream, s.streamId, s.crossbarSetupData, n, c, 2 * k + 1);
    EntryCallsAt(s.isInputStream, s.streamId, s.crossbarSetupData[c], c, 4, k);
  }

  /** The four offsets of one crossbar chunk. */
  method EmitEntry(input: bool, streamId: int, e: CrossbarChunk, chunkIndex: int) returns (calls: seq<DmaCall>)
    requires |e.chunkData| >= 16 && |e.positionData| >= 16
    ensures calls == EntryCalls(input, streamId, e, chunkIndex, 4)
  {
    calls := [];
    for k := 0 to 4
      invariant calls == EntryCalls(input, streamId, e, chunkIndex, k)
    {
      calls := calls + [SetCrossbarChunk(input, streamId, chunkIndex, k, e.chunkData[3 + k * 4], e.chunkData[2 + k * 4],
                                         e.chunkData[1 + k * 4], e.chunkData[k * 4]),
                        SetCrossbarPosition(input, streamId, chunkIndex, k, e.positionData[3 + k * 4],
                                            e.positionData[2 + k * 4], e.positionData[1 + k * 4], e.positionData[k * 4])];
    }
  }

  method SetUpDmaCrossbars(s: StreamSetup) returns (r: Result<seq<DmaCall>>)
    ensures r == CrossbarCalls(s)
  {
    if !EntriesComplete(s.crossbarSetupData) {
      return Failure("Undefined");
    }
    var calls := [];
    for c := 0 to |s.crossbarSetupData|
      invariant calls == CrossbarPrefix(s.isInputStream, s.streamId, s.crossbarSetupData, c)
    {
      var entryCalls := EmitEntry(s.isInputStream, s.streamId, s.crossbarSetupData[c], c);
      calls := calls + entryCalls;
    }
    r := Success(calls);
  }

  // ---------------------------------------------------------------------
  // SetupDMAModule

  /** The whole setup: the input stream with the given record count and
      the output stream with none, each calculated from the record size
      and given its crossbar data by the finder (whose implementation is
      not part of this model); then, stream by stream, the I/O writes and
      the crossbar writes. */
  function ModuleCalls(address: int, recordSize: int, recordCount: int, inputStreamId: int, outputStreamId: int,
                       finder: (bool, int, int, StreamSetup) -> seq<CrossbarChunk>): Result<seq<DmaCall>>
  {
    var input :- Calculated(NewStreamSetup(inputStreamId, true, recordCount), recordSize, address);
    var output :- Calculated(NewStreamSetup(outputStreamId, false, 0), recordSize, address);
    var inputReady := input.(crossbarSetupData := finder(true, ANY_CHUNK, ANY_POSITION, input));
    var outputReady := output.(crossbarSetupData := finder(false, ANY_CHUNK, ANY_POSITION, output));
    var inputCrossbar :- CrossbarCalls(inputReady);
    var outputCrossbar :- CrossbarCalls(outputReady);
    Success(IoCalls(inputReady) + inputCrossbar + IoCalls(outputReady) + outputCrossbar)
  }

  method SetupDmaModule(address: int, recordSize: int, recordCount: int, inputStreamId: int, outputStreamId: int,
                        finder: (bool, int, int, StreamSetup) -> seq<CrossbarChunk>) returns (r: Result<seq<DmaCall>>)
    ensures r == ModuleCalls(address, recordSize, recordCount, inputStreamId, outputStreamId, finder)
  {
    var input := CalculateDmaStreamSetupData(NewStreamSetup(inputStreamId, true, recordCount), recordSize, address);
    if input.Failure? {
      return Failure(input.error);
    }
    var output := CalculateDmaStreamSetupData(NewStreamSetup(outputStreamId, false, 0), recordSize, address);
    if output.Failure? {
      return Failure(output.error);
    }
    var inputReady := input.value.(crossbarSetupData := finder(true, ANY_CHUNK, ANY_POSITION, input.value));
    var outputReady := output.value.(crossbarSetupData := finder(false, ANY_CHUNK, ANY_POSITION, output.value));
    var inputIo := SetUpDmaIoStreams(inputReady);
    var inputCrossbar := SetUpDmaCrossbars(inputReady);
    if inputCrossbar.Failure? {
      return Failure(inputCrossbar.error);
    }
    var outputIo := SetUpDmaIoStreams(outputReady);
    var outputCrossbar := SetUpDmaCrossbars(outputReady);
    if outputCrossbar.Failure? {
      return Failure(outputCrossbar.error);
    }
    r := Success(inputIo + inputCrossbar.value + outputIo + outputCrossbar.value);
  }

  /** A successful setup starts with the input controller's writes,
      sized by the given record count, and programs the output controller
      with a size of 0; both streams get the same record size, and every
      chunk id write maps a record chunk onto itself. */
  lemma ModuleCallsMeaning(address: int, recordSize: int, recordCount: int, inputStreamId: int, outputStreamId: int,
                           finder: (bool, int, int, StreamSetup) -> seq<CrossbarChunk>)
    requires ModuleCalls(address, recordSize, recordCount, inputStreamId, outputStreamId, finder).Success?
    ensures 1 <= recordSize <= 512
    ensures var w := ModuleCalls(address, recordSize, recordCount, inputStreamId, outputStreamId, finder).value;
      |w| >= 4 && w[2] == SetControllerStreamSize(true, inputStreamId, recordCount) &&
      w[3] == SetRecordSize(inputStreamId, ChunksPerRecord(recordSize)) &&
      SetControllerStreamSize(false, outputStreamId, 0) in w &&
      SetRecordSize(outputStreamId, ChunksPerRecord(recordSize)) in w
  {
    var input := Calculated(NewStreamSetup(inputStreamId, true, recordCount), recordSize, address).value;
    var output := Calculated(NewStreamSetup(outputStreamId, false, 0), recordSize, address).value;
    var inputReady := input.(crossbarSetupData := finder(true, ANY_CHUNK, ANY_POSITION, input));
    var outputReady := output.(crossbarSetupData := finder(false, ANY_CHUNK, ANY_POSITION, output));
    IoCallsHead(inputReady);
    IoCallsHead(outputReady);
  }

  /** The first four I/O writes of a stream. */
  lemma IoCallsHead(s: StreamSetup)
    ensures |IoCalls(s)| >= 4
    ensures IoCalls(s)[2] == SetControllerStreamSize(s.isInputStream, s.streamId, s.recordCount)
    ensures IoCalls(s)[3] == SetRecordSize(s.streamId, s.chunksPerRecord)
    ensures IoCalls(s)[2] in IoCalls(s) && IoCalls(s)[3] in IoCalls(s)
  {
  }
}
