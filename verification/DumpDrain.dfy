/**
 Draining a dump: the buffer the hardware fills is sent as a row of chunks, and what a reader puts together from them
 is the capture.
 */
module DumpDrain {
  import opened Bytes
  import opened Flux
  import opened TrackCodec
  import opened FastCodec
  import opened DumpChunk
  import opened DumpCells
  import opened ChunkLayout

  /** ((50000000 / 16 * 4) / 16) & ~3: a sixteenth of a second at 50 MHz. */
  const CHUNK_MAX_SIZE := 781248

  // ----- the reader -----

  /** The gaps and the other channel of consecutive chunks. */
  function ReadChunks(chunks: seq<seq<byte>>): Option<Contents>
    decreases |chunks|
  {
    if chunks == [] then Some(Contents([], []))
    else
      match (ReadChunks(chunks[..|chunks| - 1]), ReadChunk(chunks[|chunks| - 1]))
      case (Some(a), Some(b)) => Some(Contents(a.gaps + b.gaps, a.ios + b.ios))
      case _ => None
  }

  // ----- the windows -----

  /** The size of the chunk at offset last of a buffer of the given size. */
  function ChunkSize(size: nat, last: nat): int
  {
    if size - last > CHUNK_MAX_SIZE then CHUNK_MAX_SIZE else size - last - 4
  }

  /** How far the windows reach after n of them. */
  function Offset(size: nat, n: nat): nat
    requires size >= 4
  {
    if n * CHUNK_MAX_SIZE < size - 4 then n * CHUNK_MAX_SIZE else size - 4
  }

  /** The cell words that have been looked at by then; the last window looks one or five words too far. */
  function WordsRead(size: nat, n: nat): nat
    requires size >= 4
  {
    if n * CHUNK_MAX_SIZE < size - 4 then n * (CHUNK_MAX_SIZE / 4)
    else (size - 4) / 4 + if size % 32 == 0 then 1 else 5
  }

  lemma RoundedWords(t: nat, r: nat)
    requires r < 16
    ensures ChunkWords(32 * t + 2 * r) == 8 * t + if r == 0 then 0 else 8
  {
    assert (32 * t + 2 * r) / 2 == 16 * t + r;
    assert (16 * t + r) % 16 == r;
  }

  /** The last window is rounded up by one word or by five. */
  lemma LastWindow(size: nat, last: nat, t: nat)
    requires last % 32 == 0 && (size - last == 32 * t + 32 || size - last == 32 * t + 16)
    ensures ChunkWords(size - last - 4) == (size - last - 4) / 4 + if size % 32 == 0 then 1 else 5
    ensures (size - 4) / 4 == last / 4 + (size - last - 4) / 4 && (size - last - 4) % 4 == 0
  {
    hide ChunkWords;
    var a := last / 32;
    if size - last == 32 * t + 32 {
      RoundedWords(t, 14);
      WindowOf(a, t, 7);
    } else {
      RoundedWords(t, 6);
      WindowOf(a, t, 3);
    }
  }

  lemma WindowOf(a: nat, t: nat, q: nat)
    requires q < 8
    ensures (32 * a + 32 * t + 4 * q) / 4 == 8 * a + 8 * t + q && (32 * t + 4 * q) / 4 == 8 * t + q
    ensures (32 * a) / 4 == 8 * a && (32 * t + 4 * q) % 4 == 0
    ensures (32 * a + 32 * t + 4 * q + 4) % 32 == (4 * q + 4) % 32
  {
    assert 32 * a + 32 * t + 4 * q == 4 * (8 * a + 8 * t + q);
    assert 32 * a + 32 * t + 4 * q + 4 == 32 * (a + t) + (4 * q + 4);
  }

  lemma Units(m: nat, k: nat)
    requires 32 * k < 16 * m
    ensures (32 * k) % 32 == 0 && (32 * k) / 4 == 8 * k && (16 * m - 32 * k) % 16 == 0 && 16 * m - 32 * k >= 16
  {
    assert 16 * m - 32 * k == 16 * (m - 2 * k);
  }

  /** A window that is not the last one. */
  lemma FullWindow(size: nat, n: nat, last: nat)
    requires last == n * CHUNK_MAX_SIZE && size % 16 == 0 && last % 32 == 0 && last / 4 == n * (CHUNK_MAX_SIZE / 4)
    requires size - last > CHUNK_MAX_SIZE
    ensures Offset(size, n) == last && WordsRead(size, n) == last / 4
    ensures ChunkSize(size, last) == CHUNK_MAX_SIZE && ChunkWords(CHUNK_MAX_SIZE) == CHUNK_MAX_SIZE / 4
    ensures Offset(size, n + 1) == last + CHUNK_MAX_SIZE && WordsRead(size, n + 1) == last / 4 + CHUNK_MAX_SIZE / 4
    ensures 2 * WordsRead(size, n + 1) <= size / 2
  {
    hide ChunkWords;
    RoundedWords(24414, 0);
    assert (n + 1) * CHUNK_MAX_SIZE == last + CHUNK_MAX_SIZE;
    assert (n + 1) * (CHUNK_MAX_SIZE / 4) == last / 4 + CHUNK_MAX_SIZE / 4;
    Apart(size - last);
  }

  lemma Apart(d: nat)
    requires d > CHUNK_MAX_SIZE && d % 16 == 0
    ensures d >= CHUNK_MAX_SIZE + 16
  {
    assert d == 16 * (d / 16);
  }

  /** The last one. */
  lemma ShortWindow(size: nat, n: nat, last: nat)
    requires last == n * CHUNK_MAX_SIZE && last % 32 == 0 && last / 4 == n * (CHUNK_MAX_SIZE / 4)
    requires 16 <= size - last <= CHUNK_MAX_SIZE && (size - last) % 16 == 0
    ensures Offset(size, n) == last && WordsRead(size, n) == last / 4 && ChunkSize(size, last) == size - last - 4
    ensures (size - last - 4) % 4 == 0
    ensures Offset(size, n + 1) == size - 4
    ensures WordsRead(size, n + 1) == last / 4 + ChunkWords(size - last - 4)
    ensures 2 * WordsRead(size, n + 1) <= size / 2 + if size % 32 == 0 then 0 else 8
  {
    hide ChunkWords;
    assert (n + 1) * CHUNK_MAX_SIZE == last + CHUNK_MAX_SIZE;
    LastWindow(size, last, (size - last - 16) / 32);
  }

  /** The windows follow each other without gap or overlap up to the last four bytes of the buffer. */
  lemma WindowStep(size: nat, n: nat)
    requires size % 16 == 0 && size > 0 && Offset(size, n) < size - 4
    ensures Offset(size, n) == n * CHUNK_MAX_SIZE && Offset(size, n) % 32 == 0
    ensures WordsRead(size, n) == Offset(size, n) / 4
    ensures 0 < ChunkSize(size, Offset(size, n)) <= CHUNK_MAX_SIZE && ChunkSize(size, Offset(size, n)) % 4 == 0
    ensures Offset(size, n + 1) == Offset(size, n) + ChunkSize(size, Offset(size, n))
    ensures WordsRead(size, n + 1) == WordsRead(size, n) + ChunkWords(ChunkSize(size, Offset(size, n)))
    ensures 2 * WordsRead(size, n + 1) <= size / 2 + if size % 32 == 0 then 0 else 8
  {
    var last := n * CHUNK_MAX_SIZE;
    assert last < size - 4;
    hide ChunkWords, Offset, WordsRead, ChunkSize;
    var k: nat := 24414 * n;
    assert last == 32 * k && n * (CHUNK_MAX_SIZE / 4) == 8 * k;
    Units(size / 16, k);
    if size - last > CHUNK_MAX_SIZE {
      FullWindow(size, n, last);
    } else {
      ShortWindow(size, n, last);
    }
  }

  lemma SideJoin(buffer: seq<Word>, base: nat, a: nat, b: nat)
    requires a + b == 0 || base + 2 * (a + b - 1) < |buffer|
    ensures Side(buffer, base, a) + Side(buffer, base + 2 * a, b) == Side(buffer, base, a + b)
  {
  }

  lemma SidesJoin(buffer: seq<Word>, last: nat, words: nat, ios: nat)
    requires last % 4 == 0 && ios > 0 && words > 0
    requires last / 2 + 2 * words <= |buffer| && last / 2 + 2 * ios <= |buffer|
    ensures Side(buffer, 0, last / 4) + Side(buffer, last / 2, words) == Side(buffer, 0, last / 4 + words)
    ensures Side(buffer, 1, last / 4) + Side(buffer, last / 2 + 1, ios) == Side(buffer, 1, last / 4 + ios)
  {
    SideJoin(buffer, 0, last / 4, words);
    SideJoin(buffer, 1, last / 4, ios);
  }

  lemma SaturateConcat(a: seq<nat>, b: seq<nat>)
    ensures SaturateAll(a + b) == SaturateAll(a) + SaturateAll(b)
  {
  }

  /** The chunks so far hold the first words of one channel, in gaps, and the first ios words of the other. */
  ghost predicate Drained(chunks: seq<seq<byte>>, cells: seq<Word>, ios: seq<Word>)
  {
    ReadChunks(chunks) == Some(Contents(SaturateAll(FastGaps(cells, 0, 0)), ios))
  }

  lemma DrainedMore(chunks: seq<seq<byte>>, cells: seq<Word>, ios: seq<Word>, chunk: seq<byte>, number: nat,
                    text: seq<byte>, moreCells: seq<Word>, moreIos: seq<Word>)
    requires Drained(chunks, cells, ios)
    requires var gaps := FastGaps(moreCells, 0, FastCarry(cells, 0, 0));
             IsChunk(chunk, number, text, EncodeGaps(gaps), |gaps|, WordBytes(moreIos))
    ensures Drained(chunks + [chunk], cells + moreCells, ios + moreIos)
    ensures FastCarry(cells + moreCells, 0, 0) == FastCarry(moreCells, 0, FastCarry(cells, 0, 0))
  {
    hide FastGaps, FastCarry, EncodeGaps, IsChunk, ReadChunk, SaturateAll, WordBytes;
    var carry := FastCarry(cells, 0, 0);
    ChunkReads(chunk, number, text, FastGaps(moreCells, 0, carry), moreIos);
    ChunksJoin(cells, moreCells, 0);
    SaturateConcat(FastGaps(cells, 0, 0), FastGaps(moreCells, 0, carry));
    assert (chunks + [chunk])[..|chunks|] == chunks;
  }

  // ----- the hardware buffer and the loop that drains it -----

  class Fpga {
    const dumpBuffer: array<Word>
    const dumpBufferSize: uint32
    const pulseLut: array<uint16>
    var lastDumpOffset: nat
    var bitDelta: uint32
    var chunkNumber: uint32

    constructor (dumpBuffer: array<Word>, dumpBufferSize: uint32, pulseLut: array<uint16>)
      ensures this.dumpBuffer == dumpBuffer && this.dumpBufferSize == dumpBufferSize && this.pulseLut == pulseLut
      ensures lastDumpOffset == 0 && bitDelta == 0 && chunkNumber == 0
    {
      this.dumpBuffer, this.dumpBufferSize, this.pulseLut := dumpBuffer, dumpBufferSize, pulseLut;
      lastDumpOffset, bitDelta, chunkNumber := 0, 0, 0;
    }

    /** The buffer is mapped in whole pages, so that there is room for the words the last window reads on. */
    ghost predicate Mapped()
      reads pulseLut
    {
      && LutReady(pulseLut) && dumpBufferSize > 0 && dumpBufferSize % 16 == 0
      && dumpBuffer.Length >= dumpBufferSize / 2 + if dumpBufferSize % 32 == 0 then 0 else 8
    }

    /** n chunks have been taken out. */
    ghost predicate Sent(n: nat)
      reads this, dumpBuffer, pulseLut
    {
      && Mapped() && chunkNumber == n && lastDumpOffset == Offset(dumpBufferSize, n)
      && 2 * WordsRead(dumpBufferSize, n) <= dumpBuffer.Length
      && bitDelta == FastCarry(Side(dumpBuffer[..], 0, WordsRead(dumpBufferSize, n)), 0, 0)
    }

    /** The next chunk, or nothing when the hardware reports that it found no index. */
    method GetNextAvailableStreamChunk(timeout: bool, text: seq<byte>, sourceAddress: nat, ghost n: nat)
      returns (packet: Option<seq<byte>>)
      requires Sent(n) && lastDumpOffset < dumpBufferSize - 4 && |text| < METADATA_MAXSIZE
      modifies this
      ensures packet.None? <==> timeout
      ensures packet.None? ==> unchanged(this)
      ensures packet.Some? ==> Sent(n + 1)
      ensures packet.Some? ==>
                var last, size := old(lastDumpOffset), ChunkSize(dumpBufferSize, old(lastDumpOffset));
                && size > 0 && lastDumpOffset == last + size
                && last / 2 + 2 * ChunkWords(size) <= dumpBuffer.Length
                && var gaps := FastGaps(Side(dumpBuffer[..], last / 2, ChunkWords(size)), 0, old(bitDelta));
                   IsChunk(packet.value, n, text, EncodeGaps(gaps), |gaps|,
                           WordBytes(Side(dumpBuffer[..], last / 2 + 1, size / 4)))
    {
      hide IsChunk, EncodeGaps, FastGaps, FastCarry, Side, WordBytes;
      if timeout {
        return None;
      }
      var chunkSize := ChunkSize(dumpBufferSize, lastDumpOffset);
      WindowStep(dumpBufferSize, n);
      WholeChunk(chunkSize);
      var chunk, size, delta :=
        GenerateChunk(dumpBuffer, lastDumpOffset / 2, chunkSize, pulseLut, chunkNumber, bitDelta, text, sourceAddress);
      SidesJoin(dumpBuffer[..], lastDumpOffset, ChunkWords(chunkSize), chunkSize / 4);
      ChunksJoin(Side(dumpBuffer[..], 0, lastDumpOffset / 4),
                 Side(dumpBuffer[..], lastDumpOffset / 2, ChunkWords(chunkSize)), 0);
      bitDelta := delta;
      lastDumpOffset := lastDumpOffset + chunkSize;
      chunkNumber := chunkNumber + 1;
      packet := Some(chunk[..size]);
    }
  }

  /** How many chunks a buffer is sent in. */
  function ChunksOf(size: nat): nat
    requires size >= 4
  {
    (size - 4 + CHUNK_MAX_SIZE - 1) / CHUNK_MAX_SIZE
  }

  lemma ChunksLeft(size: nat, n: nat)
    requires size >= 4
    ensures Offset(size, n) < size - 4 <==> n < ChunksOf(size)
  {
    var k := ChunksOf(size);
    assert k * CHUNK_MAX_SIZE >= size - 4 > (k - 1) * CHUNK_MAX_SIZE;
    if n < k {
      assert n * CHUNK_MAX_SIZE <= (k - 1) * CHUNK_MAX_SIZE;
    } else {
      assert n * CHUNK_MAX_SIZE >= k * CHUNK_MAX_SIZE;
    }
  }

  /** The chunks hold what the first n windows of the dump cover. */
  ghost predicate DrainedUpTo(packets: seq<seq<byte>>, n: nat, buffer: seq<Word>, size: nat)
  {
    && size >= 4 && |packets| == n
    && 2 * WordsRead(size, n) <= |buffer| && Offset(size, n) / 4 * 2 <= |buffer|
    && Drained(packets, Side(buffer, 0, WordsRead(size, n)), Side(buffer, 1, Offset(size, n) / 4))
  }

  lemma DrainedNext(packets: seq<seq<byte>>, n: nat, buffer: seq<Word>, size: nat, packet: seq<byte>, text: seq<byte>)
    requires DrainedUpTo(packets, n, buffer, size) && size % 16 == 0 && Offset(size, n) < size - 4
    requires |buffer| >= size / 2 + if size % 32 == 0 then 0 else 8
    requires var last, len := Offset(size, n), ChunkSize(size, Offset(size, n));
             && len > 0 && last / 2 + 2 * ChunkWords(len) <= |buffer|
             && var gaps := FastGaps(Side(buffer, last / 2, ChunkWords(len)), 0,
                                     FastCarry(Side(buffer, 0, WordsRead(size, n)), 0, 0));
                IsChunk(packet, n, text, EncodeGaps(gaps), |gaps|, WordBytes(Side(buffer, last / 2 + 1, len / 4)))
    ensures DrainedUpTo(packets + [packet], n + 1, buffer, size)
  {
    hide IsChunk, EncodeGaps, FastGaps, FastCarry, WordBytes, Drained, ChunkWords, Side;
    var last, len := Offset(size, n), ChunkSize(size, Offset(size, n));
    WindowStep(size, n);
    WholeChunk(len);
    SidesJoin(buffer, last, ChunkWords(len), len / 4);
    DrainedMore(packets, Side(buffer, 0, last / 4), Side(buffer, 1, last / 4), packet, n, text,
                Side(buffer, last / 2, ChunkWords(len)), Side(buffer, last / 2 + 1, len / 4));
  }

  /**
   The loop that drains one dump. It ends; unless the hardware gave up, the chunks together are the whole capture, and
   if it gave up they are what came before.
   */
  method ReadDisk(fpga: Fpga, timeouts: nat -> bool, texts: nat -> seq<byte>, sourceAddress: nat)
    returns (packets: seq<seq<byte>>, error: bool)
    requires fpga.Mapped() && forall k: nat :: |texts(k)| < METADATA_MAXSIZE
    modifies fpga
    ensures DrainedUpTo(packets, |packets|, fpga.dumpBuffer[..], fpga.dumpBufferSize)
    ensures |packets| <= ChunksOf(fpga.dumpBufferSize) && forall k: nat | k < |packets| :: !timeouts(k)
    ensures error <==> |packets| < ChunksOf(fpga.dumpBufferSize)
    ensures error ==> timeouts(|packets|) && fpga.lastDumpOffset == fpga.dumpBufferSize
    ensures !error ==> fpga.lastDumpOffset == fpga.dumpBufferSize - 4
  {
    hide IsChunk, EncodeGaps, FastGaps, FastCarry, WordBytes, Side, ChunkWords, DrainedUpTo, ChunksOf;
    fpga.lastDumpOffset, fpga.bitDelta, fpga.chunkNumber := 0, 0, 0;
    packets, error := [], false;
    ghost var n: nat := 0;
    NothingDrained(fpga.dumpBuffer[..], fpga.dumpBufferSize);
    ChunksLeft(fpga.dumpBufferSize, 0);
    while fpga.lastDumpOffset < fpga.dumpBufferSize - 4
      invariant fpga.Mapped() && n == |packets| && forall k: nat | k < n :: !timeouts(k)
      invariant DrainedUpTo(packets, n, fpga.dumpBuffer[..], fpga.dumpBufferSize)
      invariant n <= ChunksOf(fpga.dumpBufferSize)
      invariant !error ==> fpga.Sent(n)
      invariant error ==> timeouts(n) && fpga.lastDumpOffset == fpga.dumpBufferSize && n < ChunksOf(fpga.dumpBufferSize)
      decreases fpga.dumpBufferSize - fpga.lastDumpOffset
    {
      ChunksLeft(fpga.dumpBufferSize, n);
      var packet := fpga.GetNextAvailableStreamChunk(timeouts(|packets|), texts(|packets|), sourceAddress, n);
      if packet.Some? {
        DrainedNext(packets, n, fpga.dumpBuffer[..], fpga.dumpBufferSize, packet.value, texts(|packets|));
        packets := packets + [packet.value];
        n := n + 1;
      } else {
        error := true;
        fpga.lastDumpOffset := fpga.dumpBufferSize;
      }
    }
    ChunksLeft(fpga.dumpBufferSize, n);
  }

  lemma NothingDrained(buffer: seq<Word>, size: nat)
    requires size >= 16
    ensures DrainedUpTo([], 0, buffer, size)
    ensures Offset(size, 0) == WordsRead(size, 0) == 0 && FastCarry(Side(buffer, 0, 0), 0, 0) == 0
  {
    assert FastGaps(Side(buffer, 0, 0), 0, 0) == [];
    assert SaturateAll([]) == [];
    assert Side(buffer, 1, 0) == [];
  }

  // ----- what the chunks of a finished dump are worth -----

  /** The words a reader rebuilds from gaps; none if a pulse falls outside. */
  function Rebuild(gaps: seq<nat>, n: nat): Option<seq<Word>>
  {
    if Below(Positions(gaps, 0), 16 * n) then Some(SetPulses(Blank(n), Positions(gaps, 0))) else None
  }

  /** What follows for a reader of a dump of which so many words were captured and perhaps more looked at. */
  ghost predicate CellsReturn(rebuilt: Option<seq<Word>>, buffer: seq<Word>, captured: nat, looked: nat)
    requires captured <= looked && 2 * looked <= |buffer|
  {
    var cells, w := Side(buffer, 0, looked), Side(buffer, 0, captured);
    && rebuilt.Some? && |rebuilt.value| == looked
    && (rebuilt.value == cells <==> SinglePulses(cells) && Encodable(CaptureGaps(cells)))
    && (SinglePulses(w) ==> (rebuilt.value[..captured] == w <==> ComesBack(w, cells[captured..])))
  }

  lemma CellsReturned(buffer: seq<Word>, captured: nat, looked: nat)
    requires captured <= looked && 2 * looked <= |buffer| && 16 * looked < U32 - 16
    ensures CellsReturn(Rebuild(SaturateAll(FastGaps(Side(buffer, 0, looked), 0, 0)), looked),
                        buffer, captured, looked)
  {
    hide SetPulses, FastGaps, Positions, SaturateAll, Below, SinglePulses, Encodable, CaptureGaps, ComesBack;
    var cells, w := Side(buffer, 0, looked), Side(buffer, 0, captured);
    assert cells == w + cells[captured..];
    DumpIsLossless(cells);
    if SinglePulses(w) {
      CapturedComesBack(w, cells[captured..]);
    }
  }

  /**
   The lossless dump: from the chunks of a dump that was not cut short, a reader gets the whole second channel; all
   cells that were looked at exactly when no word holds two pulses and no gap is cut down; and those of the captured
   words, unless they hold double pulses themselves, exactly when none of their gaps is cut down.
   */
  lemma FinishedDump(packets: seq<seq<byte>>, buffer: seq<Word>, size: nat)
    requires size % 16 == 0 && 0 < size < 0x4000_0000 - 64
    requires DrainedUpTo(packets, ChunksOf(size), buffer, size)
    ensures 2 * WordsRead(size, ChunksOf(size)) <= |buffer|
    ensures WordsRead(size, ChunksOf(size)) == (size - 4) / 4 + if size % 32 == 0 then 1 else 5
    ensures ReadChunks(packets).Some? && ReadChunks(packets).value.ios == Side(buffer, 1, (size - 4) / 4)
    ensures var n := WordsRead(size, ChunksOf(size));
            CellsReturn(Rebuild(ReadChunks(packets).value.gaps, n), buffer, (size - 4) / 4, n)
  {
    hide SetPulses, FastGaps, Positions, SaturateAll, ReadChunks, Side, Below, ChunksOf, CellsReturn, Rebuild;
    ChunksLeft(size, ChunksOf(size));
    CellsReturned(buffer, (size - 4) / 4, WordsRead(size, ChunksOf(size)));
  }

  /**
   Draining a dump and reading it back: when no index timed out, the second channel is what was captured, and so are
   the cells, as FinishedDump says.
   */
  method DrainAndRead(fpga: Fpga, timeouts: nat -> bool, texts: nat -> seq<byte>, sourceAddress: nat)
    returns (error: bool, ios: seq<Word>, cells: Option<seq<Word>>)
    requires fpga.Mapped() && fpga.dumpBufferSize < 0x4000_0000 - 64
    requires forall k: nat :: |texts(k)| < METADATA_MAXSIZE
    modifies fpga
    ensures var size, buffer := fpga.dumpBufferSize, fpga.dumpBuffer[..];
            var captured := (size - 4) / 4;
            var n := captured + if size % 32 == 0 then 1 else 5;
            && (error <==> exists k: nat :: k < ChunksOf(size) && timeouts(k))
            && 2 * n <= |buffer|
            && (!error ==> ios == Side(buffer, 1, captured) && CellsReturn(cells, buffer, captured, n))
  {
    hide DrainedUpTo, ReadChunks, Rebuild, Side, CellsReturn, ChunksOf;
    DumpFits(fpga);
    var packets;
    packets, error := ReadDisk(fpga, timeouts, texts, sourceAddress);
    ios, cells := [], None;
    if !error {
      FinishedDump(packets, fpga.dumpBuffer[..], fpga.dumpBufferSize);
      var size: nat := fpga.dumpBufferSize;
      var contents := ReadChunks(packets).value;
      ios := contents.ios;
      cells := Rebuild(contents.gaps, (size - 4) / 4 + if size % 32 == 0 then 1 else 5);
    }
  }

  lemma DumpFits(fpga: Fpga)
    requires fpga.Mapped()
    ensures var size: nat := fpga.dumpBufferSize;
            2 * ((size - 4) / 4 + if size % 32 == 0 then 1 else 5) <= fpga.dumpBuffer.Length
  {
    var size: nat := fpga.dumpBufferSize;
    assert size == 16 * (size / 16);
    assert (size - 4) / 4 == 4 * (size / 16) - 1;
  }

  // ----- when the loop ends -----

  /** The guard of the loop, in 32 bits. */
  predicate GoesOn(size: uint32, last: nat)
  {
    last < (size - 4) % U32
  }

  /** The offset after n calls that did not time out; a chunk without bytes counts as a failure. */
  function OffsetAfter(size: uint32, n: nat): nat
  {
    if n == 0 then 0
    else
      var last := OffsetAfter(size, n - 1);
      if ChunkSize(size, last) > 0 then last + ChunkSize(size, last) else size
  }

  lemma {:induction false} EmptyStays(n: nat)
    ensures OffsetAfter(0, n) == 0
  {
    if n > 0 {
      EmptyStays(n - 1);
    }
  }

  lemma {:induction false} OffsetIs(size: uint32, n: nat)
    requires size % 16 == 0 && size > 0 && n <= ChunksOf(size)
    ensures OffsetAfter(size, n) == Offset(size, n)
    decreases n
  {
    if n > 0 {
      hide Offset, ChunkSize, ChunksOf, WordsRead;
      OffsetIs(size, n - 1);
      ChunksLeft(size, n - 1);
      WindowStep(size, n - 1);
    } else {
      NothingDrained([], size);
    }
  }

  /** The loop ends for every buffer that is not empty; for an empty one it goes on for ever. */
  lemma DrainEndsExactly(size: uint32)
    requires size % 16 == 0
    ensures (exists n: nat :: !GoesOn(size, OffsetAfter(size, n))) <==> size > 0
  {
    if size > 0 {
      var n := ChunksOf(size);
      OffsetIs(size, n);
      ChunksLeft(size, n);
      assert !GoesOn(size, OffsetAfter(size, n));
    } else {
      forall n: nat
        ensures GoesOn(size, OffsetAfter(size, n))
      {
        EmptyStays(n);
      }
    }
  }
}
