/** The encoder of the chunks a dump is sent in, and the carry that joins them. */
module DumpChunk {
  import opened Bytes
  import opened Flux
  import opened TrackCodec
  import opened FastCodec

  // ----- the encoder of a chunk -----

  /** Bytes of one channel in a chunk, rounded up to a multiple of sixteen. */
  function RoundedLength(chunkSize: nat): nat
  {
    var len := chunkSize / 2;
    if len % 16 != 0 then len - len % 16 + 16 else len
  }

  /** The words the encoder looks at. */
  function ChunkWords(chunkSize: nat): nat
  {
    RoundedLength(chunkSize) / 2
  }

  /** These are the words of the chunk exactly when its size is a multiple of 32 bytes. */
  lemma WholeChunk(chunkSize: nat)
    requires chunkSize % 4 == 0
    ensures chunkSize / 4 <= ChunkWords(chunkSize) <= chunkSize / 4 + 7
    ensures ChunkWords(chunkSize) == chunkSize / 4 <==> chunkSize % 32 == 0
  {
    var t, r := chunkSize / 32, chunkSize % 32 / 4;
    assert chunkSize == 32 * t + 4 * r;
    assert chunkSize / 2 == 16 * t + 2 * r;
    assert (16 * t + 2 * r) % 16 == 2 * r;
    assert RoundedLength(chunkSize) == if r == 0 then 16 * t else 16 * t + 16;
  }

  /** Encodes one chunk; the cells behind the last pulse are carried from chunk to chunk. */
  method FastConvertChunk(buffer: array<Word>, base: nat, chunkSize: nat, lut: array<uint16>, prevDelta: uint32)
    returns (data: array<byte>, trackLength: nat, outSize: nat, nbPulses: nat, delta: uint32)
    requires LutReady(lut) && chunkSize >= 2
    requires base + 2 * (ChunkWords(chunkSize) - 1) < buffer.Length
    ensures fresh(data) && trackLength == 8 * RoundedLength(chunkSize)
    ensures outSize <= data.Length == RoundedLength(chunkSize)
    ensures var words := Side(buffer[..], base, ChunkWords(chunkSize));
            && data[..outSize] == EncodeGaps(FastGaps(words, 0, prevDelta))
            && nbPulses == |FastGaps(words, 0, prevDelta)|
            && delta == FastCarry(words, 0, prevDelta)
  {
    hide FastGaps, FastCarry, EncodeGaps;
    var finalTrackLen := RoundedLength(chunkSize);
    data := new byte[finalTrackLen](_ => 0);
    ghost var words := Side(buffer[..], base, ChunkWords(chunkSize));
    FastSize(words, 0, prevDelta);
    outSize, nbPulses, delta := ConvertWords(buffer, base, finalTrackLen / 2, lut, prevDelta, data);
    trackLength := finalTrackLen * 8;
  }

  // ----- consecutive chunks -----

  lemma {:induction false} FastOfSuffix(a: seq<Word>, b: seq<Word>, j: nat, delta: uint32)
    requires j <= |b|
    ensures FastGaps(a + b, |a| + j, delta) == FastGaps(b, j, delta)
    ensures FastCarry(a + b, |a| + j, delta) == FastCarry(b, j, delta)
    decreases |b| - j
  {
    hide LutEntry;
    if j < |b| {
      hide FastGaps, FastCarry;
      assert (a + b)[|a| + j] == b[j];
      if b[j] == 0 {
        FastSkip(a + b, |a| + j, delta);
        FastSkip(b, j, delta);
        FastOfSuffix(a, b, j + 1, (delta + 16) % U32);
      } else {
        FastWord(a + b, |a| + j, delta);
        FastWord(b, j, delta);
        FastOfSuffix(a, b, j + 1, LutEntry(b[j]) % 0x100);
      }
    }
  }

  lemma {:induction false} FastOfPrefix(a: seq<Word>, b: seq<Word>, i: nat, delta: uint32)
    requires i <= |a|
    ensures FastGaps(a + b, i, delta) == FastGaps(a, i, delta) + FastGaps(a + b, |a|, FastCarry(a, i, delta))
    ensures FastCarry(a + b, i, delta) == FastCarry(a + b, |a|, FastCarry(a, i, delta))
    decreases |a| - i
  {
    hide LutEntry;
    if i < |a| {
      hide FastGaps, FastCarry;
      assert (a + b)[i] == a[i];
      if a[i] == 0 {
        FastSkip(a + b, i, delta);
        FastSkip(a, i, delta);
        FastOfPrefix(a, b, i + 1, (delta + 16) % U32);
      } else {
        FastWord(a + b, i, delta);
        FastWord(a, i, delta);
        FastOfPrefix(a, b, i + 1, LutEntry(a[i]) % 0x100);
      }
    }
  }

  /** Encoding piece by piece, with the carry handed on, gives what encoding in one go gives. */
  lemma ChunksJoin(a: seq<Word>, b: seq<Word>, delta: uint32)
    ensures var carry := FastCarry(a, 0, delta);
            && FastGaps(a + b, 0, delta) == FastGaps(a, 0, delta) + FastGaps(b, 0, carry)
            && FastCarry(a + b, 0, delta) == FastCarry(b, 0, carry)
            && EncodeGaps(FastGaps(a + b, 0, delta))
               == EncodeGaps(FastGaps(a, 0, delta)) + EncodeGaps(FastGaps(b, 0, carry))
  {
    hide FastGaps, FastCarry, EncodeGaps;
    var carry := FastCarry(a, 0, delta);
    FastOfPrefix(a, b, 0, delta);
    FastOfSuffix(a, b, 0, carry);
    EncodeGapsConcat(FastGaps(a, 0, delta), FastGaps(b, 0, carry));
  }

  /** The gaps of consecutive pieces, each encoded with the carry of the ones before. */
  function PartsGaps(parts: seq<seq<Word>>, delta: uint32): seq<nat>
  {
    if parts == [] then []
    else FastGaps(parts[0], 0, delta) + PartsGaps(parts[1..], FastCarry(parts[0], 0, delta))
  }

  function PartsBytes(parts: seq<seq<Word>>, delta: uint32): seq<byte>
  {
    if parts == [] then []
    else EncodeGaps(FastGaps(parts[0], 0, delta)) + PartsBytes(parts[1..], FastCarry(parts[0], 0, delta))
  }

  function PartsCarry(parts: seq<seq<Word>>, delta: uint32): uint32
  {
    if parts == [] then delta else PartsCarry(parts[1..], FastCarry(parts[0], 0, delta))
  }

  /** However a capture is cut into pieces, they give the gaps, the bytes and the carry of encoding in one go. */
  lemma {:induction false} PartsJoin(parts: seq<seq<Word>>, delta: uint32)
    ensures PartsGaps(parts, delta) == FastGaps(Concat(parts), 0, delta)
    ensures PartsBytes(parts, delta) == EncodeGaps(FastGaps(Concat(parts), 0, delta))
    ensures PartsCarry(parts, delta) == FastCarry(Concat(parts), 0, delta)
    decreases |parts|
  {
    if parts == [] {
      FastAtEnd([], delta);
    } else {
      hide FastGaps, FastCarry, EncodeGaps;
      PartsJoin(parts[1..], FastCarry(parts[0], 0, delta));
      ChunksJoin(parts[0], Concat(parts[1..]), delta);
    }
  }

  /** The number_of_data_samples line of the metadata. */
  function ReportedSamples(prevDelta: nat, chunkSize: nat, delta: nat): int
  {
    prevDelta + chunkSize / 4 * 16 - delta
  }

  /**
   The reported number of samples is the sum of the gaps of the chunk exactly when as many words held several pulses
   as words behind the chunk were looked at; for chunks of whole 32-byte units, when none did.
   */
  lemma SamplesReported(words: seq<Word>, chunkSize: nat, prevDelta: nat)
    requires chunkSize % 4 == 0 && |words| == ChunkWords(chunkSize) && prevDelta + 16 * |words| < U32 - 16
    ensures var delta := FastCarry(words, 0, prevDelta);
            Sum(FastGaps(words, 0, prevDelta)) == ReportedSamples(prevDelta, chunkSize, delta)
            <==> DoubleWords(words, 0) == ChunkWords(chunkSize) - chunkSize / 4
    ensures chunkSize % 32 == 0 ==>
              (DoubleWords(words, 0) == ChunkWords(chunkSize) - chunkSize / 4 <==> SinglePulses(words))
  {
    hide FastGaps, FastCarry, Sum, AtMostOnePulse;
    CellsConserved(words, 0, prevDelta);
    WholeChunk(chunkSize);
    NoDoubleWords(words, 0);
    assert words[0..] == words;
  }

  lemma {:induction false} NoDoubleWords(words: seq<Word>, i: nat)
    requires i <= |words|
    ensures DoubleWords(words, i) == 0 <==> SinglePulses(words[i..])
    decreases |words| - i
  {
    hide AtMostOnePulse;
    if i < |words| {
      NoDoubleWords(words, i + 1);
      SingleCons(words[i], words[i + 1..]);
      assert words[i..] == [words[i]] + words[i + 1..];
    }
  }
}
