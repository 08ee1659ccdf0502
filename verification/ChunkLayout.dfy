/** The layout of a chunk: a header, three blocks that a reader can walk through, and a checksum. */
module ChunkLayout {
  import opened Bytes
  import opened Flux
  import opened TrackCodec
  import opened FastCodec
  import opened Lz4Memory
  import opened Lz4Format
  import opened Lz4Parse
  import opened Lz4Compress
  import opened DumpChunk
  import Crc32

  const SIGNATURE := 0x484B4843
  const METADATA_ID := 0
  const IO_ID := 1
  const STREAM_ID := 2
  const METADATA_MAXSIZE := 8 * 1024

  // ----- reading a chunk -----

  datatype Block = Block(kind: nat, payload: seq<byte>)

  /** The blocks from position at up to stop; each is a type, a size and that many bytes. */
  function Blocks(b: seq<byte>, at: nat, stop: nat): Option<seq<Block>>
    requires stop <= |b|
    decreases stop - at
  {
    if at == stop then Some([])
    else if at + 8 > stop then None
    else
      var next := at + 8 + Read32(b, at + 4);
      if next > stop then None
      else
        match Blocks(b, next, stop)
        case None => None
        case Some(rest) => Some([Block(Read32(b, at), b[at + 8..next])] + rest)
  }

  /** The block between two positions. */
  function BlockAt(b: seq<byte>, at: nat, next: nat): Block
    requires at + 8 <= next <= |b|
  {
    Block(Read32(b, at), b[at + 8..next])
  }

  /** The metadata is text ended and padded by NUL bytes. */
  predicate HoldsText(block: Block, text: seq<byte>)
  {
    && block.kind == METADATA_ID
    && |text| < |block.payload| <= |text| + 4
    && block.payload[..|text|] == text
    && forall i | |text| <= i < |block.payload| :: block.payload[i] == 0
  }

  /** A packed block: its size, the size of its contents, further fields, and an LZ4 block of those contents. */
  predicate HoldsPacked(block: Block, kind: nat, header: nat, contents: seq<byte>)
  {
    && block.kind == kind && 8 <= header <= |block.payload|
    && var packed := Read32(block.payload, 0);
       && header + packed <= |block.payload| < header + packed + 4
       && Read32(block.payload, 4) == |contents|
       && Decode(block.payload[header..header + packed], 0, []) == Some(contents)
       && Conforms(block.payload[header..header + packed], 0, 0, |contents|)
  }

  function Narrow(b: seq<byte>): seq<bv8>
  {
    seq(|b|, i requires 0 <= i < |b| => b[i] as bv8)
  }

  function StoredCrc(crc: bv32): (s: seq<byte>)
    ensures |s| == 4
  {
    var x := Crc32.StoredBytes(crc);
    [x[0] as int, x[1] as int, x[2] as int, x[3] as int]
  }

  const CRC_SEED: bv32 := 0xFFFF_FFFF

  /** The last four bytes are the checksum of those before them. */
  predicate Sealed(b: seq<byte>)
  {
    |b| >= 4 && b[|b| - 4..] == StoredCrc(Crc32.Crc(CRC_SEED, Narrow(b[..|b| - 4])))
  }

  /** Exactly three blocks, each a multiple of four bytes: the text, the packed pulses and the packed other channel. */
  ghost predicate HoldsDump(blocks: seq<Block>, text: seq<byte>, stream: seq<byte>, nbPulses: nat, ios: seq<byte>)
  {
    && |blocks| == 3
    && HoldsText(blocks[0], text)
    && HoldsPacked(blocks[1], STREAM_ID, 12, stream) && Read32(blocks[1].payload, 8) == nbPulses
    && HoldsPacked(blocks[2], IO_ID, 8, ios)
    && forall i | 0 <= i < 3 :: |blocks[i].payload| % 4 == 0
  }

  /** All a reader finds in a chunk. */
  ghost predicate IsChunk(b: seq<byte>, number: nat, text: seq<byte>, stream: seq<byte>, nbPulses: nat, ios: seq<byte>)
  {
    && |b| >= 16 && |b| % 4 == 0
    && Read32(b, 0) == SIGNATURE && Read32(b, 4) == |b| && Read32(b, 8) == number
    && Sealed(b)
    && Blocks(b, 12, |b| - 4).Some?
    && HoldsDump(Blocks(b, 12, |b| - 4).value, text, stream, nbPulses, ios)
  }

  lemma SignatureBytes(b: seq<byte>)
    requires |b| >= 4 && Read32(b, 0) == SIGNATURE
    ensures b[..4] == [0x43, 0x48, 0x4B, 0x48]
  {
    Lz4Compress.WordBytes(b, 0);
  }

  lemma SeedEmpties()
    ensures Crc32.Not(CRC_SEED) == 0
  {
  }

  /** A chunk starts with "CHKH", its blocks are of type 0, 2 and 1, and its checksum starts from an empty register. */
  lemma ChunkStarts(b: seq<byte>, number: nat, text: seq<byte>, stream: seq<byte>, nbPulses: nat, ios: seq<byte>)
    requires IsChunk(b, number, text, stream, nbPulses, ios)
    ensures b[..4] == [0x43, 0x48, 0x4B, 0x48]
    ensures var blocks := Blocks(b, 12, |b| - 4).value;
            blocks[0].kind == 0 && blocks[1].kind == 2 && blocks[2].kind == 1
    ensures b[|b| - 4..] == StoredCrc(Crc32.Not(Crc32.Register(0, Narrow(b[..|b| - 4]))))
  {
    hide Blocks, Narrow, StoredCrc, Crc32.Register, Crc32.Not, Read32, Conforms, Decode;
    SignatureBytes(b);
    SeedEmpties();
  }

  // ----- writing the parts -----

  lemma SameWord(s: seq<byte>, p: nat, t: seq<byte>, q: nat)
    requires p + 4 <= |s| && q + 4 <= |t| && forall i | p <= i < p + 4 :: s[i] == t[i - p + q]
    ensures Read32(s, p) == Read32(t, q)
  {
    assert s[p + 1] == t[p + 1 - p + q] && s[p + 2] == t[p + 2 - p + q] && s[p + 3] == t[p + 3 - p + q];
  }

  method WriteLE32(block: array<byte>, at: nat, v: uint32)
    requires at + 4 <= block.Length
    modifies block
    ensures Read32(block[..], at) == v
    ensures forall i | 0 <= i < block.Length && !(at <= i < at + 4) :: block[i] == old(block[i])
  {
    block[at], block[at + 1] := v % 0x100, v / 0x100 % 0x100;
    block[at + 2], block[at + 3] := v / 0x1_0000 % 0x100, v / 0x100_0000;
    Digits(v);
  }

  lemma Digits(v: uint32)
    ensures v % 0x100 + 0x100 * (v / 0x100 % 0x100) + 0x1_0000 * (v / 0x1_0000 % 0x100) + 0x100_0000 * (v / 0x100_0000)
            == v
  {
    assert v / 0x1_0000 == v / 0x100 / 0x100;
    assert v / 0x100_0000 == v / 0x1_0000 / 0x100;
  }

  /** The words of a header, one after the other. */
  method WriteFields(block: array<byte>, at: nat, fields: seq<uint32>)
    requires at + 4 * |fields| <= block.Length
    modifies block
    ensures forall k | 0 <= k < |fields| :: Read32(block[..], at + 4 * k) == fields[k]
    ensures forall i | 0 <= i < block.Length && !(at <= i < at + 4 * |fields|) :: block[i] == old(block[i])
  {
    hide Read32;
    var n := 0;
    while n < |fields|
      invariant 0 <= n <= |fields|
      invariant forall k | 0 <= k < n :: Read32(block[..], at + 4 * k) == fields[k]
      invariant forall i | 0 <= i < block.Length && !(at <= i < at + 4 * n) :: block[i] == old(block[i])
    {
      ghost var before := block[..];
      WriteLE32(block, at + 4 * n, fields[n]);
      forall k | 0 <= k < n
        ensures Read32(block[..], at + 4 * k) == fields[k]
      {
        SameWord(before, at + 4 * k, block[..], at + 4 * k);
      }
      n := n + 1;
    }
  }

  function Pad4(n: nat): (p: nat)
    ensures p < 4 && (n + p) % 4 == 0
  {
    (4 - n % 4) % 4
  }

  /** The size a buffer for a chunk is given. */
  function TempSize(streamSize: nat, ioSize: nat): nat
  {
    CompressBound(streamSize) + CompressBound(ioSize) + 8 * 1024 + 1024
  }

  /** Type, size and text of the metadata block; returns where the next block starts. */
  method WriteMetadata(block: array<byte>, at: nat, text: seq<byte>) returns (next: nat)
    requires |text| < METADATA_MAXSIZE && at + 8 + METADATA_MAXSIZE <= block.Length
    modifies block
    ensures at + 8 <= next <= at + 8 + METADATA_MAXSIZE && (next - at) % 4 == 0
    ensures block[..at] == old(block[..at])
    ensures Read32(block[..], at + 4) == next - at - 8
    ensures HoldsText(BlockAt(block[..], at, next), text)
  {
    hide Read32, HoldsText, BlockAt;
    forall i | 0 <= i < METADATA_MAXSIZE {
      block[at + 8 + i] := 0;
    }
    CopyIn(block, at + 8, text, 0, |text|);
    var payload := |text| + 1 + Pad4(|text| + 1);
    var fields: seq<uint32> := [METADATA_ID, payload];
    WriteFields(block, at, fields);
    next := at + 8 + payload;
    assert fields[0] == METADATA_ID && fields[1] == payload;
    assert Read32(block[..], at + 4 * 0) == fields[0] && Read32(block[..], at + 4 * 1) == fields[1];
    TextIsHeld(block[..], at, next, text);
  }

  lemma TextIsHeld(b: seq<byte>, at: nat, next: nat, text: seq<byte>)
    requires at + 8 + |text| < next <= at + 8 + |text| + 4 && next <= |b| && Read32(b, at) == METADATA_ID
    requires forall i | at + 8 <= i < at + 8 + |text| :: b[i] == text[i - (at + 8)]
    requires forall i | at + 8 + |text| <= i < next :: b[i] == 0
    ensures HoldsText(BlockAt(b, at, next), text)
  {
    hide Read32;
    assert b[at + 8..next][..|text|] == text;
  }

  /**
   Packs contents to position at; the compressor is given what is left of the buffer, which is more than enough.
   The source lets it write in place, and passes a capacity that still counts the header in front of at.
   */
  method PackAt(block: array<byte>, at: nat, contents: seq<byte>, sourceAddress: nat) returns (lz4Block: seq<byte>)
    requires |contents| <= MAX_INPUT_SIZE && at + CompressBound(|contents|) <= block.Length
    modifies block
    ensures 0 < |lz4Block| <= CompressBound(|contents|)
    ensures Conforms(lz4Block, 0, 0, |contents|) && Decode(lz4Block, 0, []) == Some(contents)
    ensures forall i | at <= i < at + |lz4Block| :: block[i] == lz4Block[i - at]
    ensures forall i | 0 <= i < at :: block[i] == old(block[i])
  {
    hide Conforms, Decode;
    var room := new byte[block.Length - at];
    var packed := CompressFast(contents, room, sourceAddress, 1);
    lz4Block := room[..packed];
    CopyIn(block, at, lz4Block, 0, packed);
  }

  /** A packed block: contents behind a header of the given size, whose fields are written afterwards. */
  method WritePacked(block: array<byte>, at: nat, kind: nat, header: nat, contents: seq<byte>, field: uint32,
                     sourceAddress: nat)
    returns (next: nat)
    requires |contents| <= MAX_INPUT_SIZE && kind < U32 && (header == 8 || header == 12)
    requires at + 8 + header + CompressBound(|contents|) + 3 <= block.Length
    modifies block
    ensures at + 8 <= next <= at + 8 + header + CompressBound(|contents|) + 3 && (next - at) % 4 == 0
    ensures block[..at] == old(block[..at])
    ensures Read32(block[..], at + 4) == next - at - 8
    ensures HoldsPacked(BlockAt(block[..], at, next), kind, header, contents)
    ensures header == 12 ==> Read32(block[..][at + 8..next], 8) == field
  {
    hide Decode, Conforms, Read32, HoldsPacked;
    var lz4Block := PackAt(block, at + 8 + header, contents, sourceAddress);
    var payload := header + |lz4Block| + Pad4(|lz4Block|);
    var fields: seq<uint32> := [kind, payload, |lz4Block|, |contents|] + if header == 12 then [field] else [];
    WriteFields(block, at, fields);
    next := at + 8 + payload;
    PackedIsHeld(block[..], at, next, kind, header, contents, fields, lz4Block);
  }

  lemma PackedIsHeld(b: seq<byte>, at: nat, next: nat, kind: nat, header: nat, contents: seq<byte>, fields: seq<uint32>,
                     lz4Block: seq<byte>)
    requires (header == 8 || header == 12) && 8 + 4 * |fields| == 16 + header
    requires next == at + 8 + header + |lz4Block| + Pad4(|lz4Block|) <= |b|
    requires fields[0] == kind && fields[1] == next - at - 8 && fields[2] == |lz4Block| && fields[3] == |contents|
    requires forall k | 0 <= k < |fields| :: Read32(b, at + 4 * k) == fields[k]
    requires forall i | at + 8 + header <= i < at + 8 + header + |lz4Block| :: b[i] == lz4Block[i - (at + 8 + header)]
    requires Conforms(lz4Block, 0, 0, |contents|) && Decode(lz4Block, 0, []) == Some(contents)
    ensures Read32(b, at + 4) == next - at - 8
    ensures HoldsPacked(BlockAt(b, at, next), kind, header, contents)
    ensures header == 12 ==> Read32(b[at + 8..next], 8) == fields[4]
  {
    hide Decode, Conforms, Read32, Pad4;
    var p := b[at + 8..next];
    PackedWords(b, at, next, header, fields);
    PackedSlice(b, at + 8, next, header, lz4Block);
  }

  lemma PackedWords(b: seq<byte>, at: nat, next: nat, header: nat, fields: seq<uint32>)
    requires (header == 8 || header == 12) && 8 + 4 * |fields| == 16 + header && at + 8 + header <= next <= |b|
    requires forall k | 0 <= k < |fields| :: Read32(b, at + 4 * k) == fields[k]
    ensures Read32(b, at) == fields[0] && Read32(b, at + 4) == fields[1]
    ensures var p := b[at + 8..next];
            Read32(p, 0) == fields[2] && Read32(p, 4) == fields[3] && (header == 12 ==> Read32(p, 8) == fields[4])
  {
    hide Read32;
    var p := b[at + 8..next];
    assert fields[0] == Read32(b, at) && fields[1] == Read32(b, at + 4);
    assert fields[2] == Read32(b, at + 8) && fields[3] == Read32(b, at + 12);
    SameWord(p, 0, b, at + 8);
    SameWord(p, 4, b, at + 12);
    if header == 12 {
      assert fields[4] == Read32(b, at + 16);
      SameWord(p, 8, b, at + 16);
    }
  }

  lemma PackedSlice(b: seq<byte>, from: nat, to: nat, header: nat, e: seq<byte>)
    requires from + header + |e| <= to <= |b|
    requires forall i | from + header <= i < from + header + |e| :: b[i] == e[i - (from + header)]
    ensures b[from..to][header..header + |e|] == e
  {
    var x := b[from..to][header..header + |e|];
    assert |x| == |e| && forall k | 0 <= k < |e| :: x[k] == b[from..to][header + k] == b[from + header + k] == e[k];
  }

  // ----- the whole chunk -----

  lemma SameBlock(s: seq<byte>, t: seq<byte>, at: nat, next: nat)
    requires at + 8 <= next <= |s| && next <= |t| && forall i | at <= i < next :: s[i] == t[i]
    ensures BlockAt(s, at, next) == BlockAt(t, at, next) && Read32(s, at + 4) == Read32(t, at + 4)
  {
    SameWord(s, at, t, at);
    SameWord(s, at + 4, t, at + 4);
    assert s[at + 8..next] == t[at + 8..next];
  }

  lemma OneBlock(b: seq<byte>, at: nat, next: nat, stop: nat, rest: seq<Block>)
    requires at + 8 <= next <= stop <= |b| && Read32(b, at + 4) == next - at - 8 && Blocks(b, next, stop) == Some(rest)
    ensures Blocks(b, at, stop) == Some([BlockAt(b, at, next)] + rest)
  {
  }

  lemma ThreeBlocks(b: seq<byte>, p0: nat, p1: nat, p2: nat, stop: nat)
    requires p0 + 8 <= p1 && p1 + 8 <= p2 && p2 + 8 <= stop <= |b|
    requires Read32(b, p0 + 4) == p1 - p0 - 8 && Read32(b, p1 + 4) == p2 - p1 - 8 && Read32(b, p2 + 4) == stop - p2 - 8
    ensures Blocks(b, p0, stop) == Some([BlockAt(b, p0, p1), BlockAt(b, p1, p2), BlockAt(b, p2, stop)])
  {
    assert Blocks(b, stop, stop) == Some([]);
    hide Read32, Blocks, BlockAt;
    var x0, x1, x2 := BlockAt(b, p0, p1), BlockAt(b, p1, p2), BlockAt(b, p2, stop);
    OneBlock(b, p2, stop, stop, []);
    OneBlock(b, p1, p2, stop, [x2] + []);
    OneBlock(b, p0, p1, stop, [x1] + ([x2] + []));
    assert [x0] + ([x1] + ([x2] + [])) == [x0, x1, x2];
  }

  /** The two bytes of each word, in memory order. */
  function WordBytes(words: seq<Word>): (b: seq<byte>)
    ensures |b| == 2 * |words|
  {
    seq(2 * |words|, k requires 0 <= k < 2 * |words| =>
      if k % 2 == 0 then words[k / 2] % 0x100 else words[k / 2] / 0x100)
  }

  function BytesWords(b: seq<byte>): (words: seq<Word>)
    requires |b| % 2 == 0
  {
    seq(|b| / 2, i requires 0 <= i < |b| / 2 => ReadLE16(b[2 * i], b[2 * i + 1]))
  }

  lemma WordsOfBytes(words: seq<Word>)
    ensures BytesWords(WordBytes(words)) == words
  {
    forall i | 0 <= i < |words|
      ensures BytesWords(WordBytes(words))[i] == words[i]
    {
      assert 2 * i / 2 == i && (2 * i + 1) / 2 == i;
    }
  }

  /** The other channel of the dump: every second word, starting with the second. */
  method SplitIo(buffer: array<Word>, base: nat, n: nat) returns (ios: array<Word>)
    requires base + 2 * n <= buffer.Length
    ensures fresh(ios) && ios[..] == Side(buffer[..], base + 1, n)
  {
    ios := new Word[n](_ => 0);
    var i := 0;
    while i < n
      invariant 0 <= i <= n
      invariant forall k | 0 <= k < i :: ios[k] == buffer[base + 1 + 2 * k]
    {
      ios[i] := buffer[base + 1 + i * 2];
      i := i + 1;
    }
  }

  /** The three blocks a chunk is made of, between position 12 and stop. */
  ghost predicate ChunkBlocks(b: seq<byte>, p1: nat, p2: nat, stop: nat, text: seq<byte>, stream: seq<byte>,
                              nbPulses: nat, ios: seq<byte>)
  {
    && 20 <= p1 && p1 + 8 <= p2 && p2 + 8 <= stop <= |b|
    && p1 % 4 == 0 && p2 % 4 == 0 && stop % 4 == 0
    && Read32(b, 12 + 4) == p1 - 12 - 8 && Read32(b, p1 + 4) == p2 - p1 - 8 && Read32(b, p2 + 4) == stop - p2 - 8
    && HoldsText(BlockAt(b, 12, p1), text)
    && HoldsPacked(BlockAt(b, p1, p2), STREAM_ID, 12, stream)
    && Read32(b[p1 + 8..p2], 8) == nbPulses
    && HoldsPacked(BlockAt(b, p2, stop), IO_ID, 8, ios)
  }

  lemma BlocksStand(s1: seq<byte>, s2: seq<byte>, b: seq<byte>, p1: nat, p2: nat, stop: nat, text: seq<byte>,
                    stream: seq<byte>, nbPulses: nat, ios: seq<byte>)
    requires 20 <= p1 && p1 + 8 <= p2 && p2 + 8 <= stop <= |b| && |s1| == |s2| == |b|
    requires p1 % 4 == 0 && p2 % 4 == 0 && stop % 4 == 0
    requires s2[..p1] == s1[..p1] && b[..p2] == s2[..p2]
    requires HoldsText(BlockAt(s1, 12, p1), text) && Read32(s1, 12 + 4) == p1 - 12 - 8
    requires HoldsPacked(BlockAt(s2, p1, p2), STREAM_ID, 12, stream) && Read32(s2, p1 + 4) == p2 - p1 - 8
    requires Read32(s2[p1 + 8..p2], 8) == nbPulses
    requires HoldsPacked(BlockAt(b, p2, stop), IO_ID, 8, ios) && Read32(b, p2 + 4) == stop - p2 - 8
    ensures ChunkBlocks(b, p1, p2, stop, text, stream, nbPulses, ios)
  {
    hide Read32, HoldsText, HoldsPacked, Blocks;
    forall i | 12 <= i < p1
      ensures s1[i] == b[i]
    {
      assert s1[i] == s1[..p1][i] && s2[i] == s2[..p1][i] && s2[i] == s2[..p2][i] && b[i] == b[..p2][i];
    }
    forall i | p1 <= i < p2
      ensures s2[i] == b[i]
    {
      assert s2[i] == s2[..p2][i] && b[i] == b[..p2][i];
    }
    SameBlock(s1, b, 12, p1);
    SameBlock(s2, b, p1, p2);
  }

  /** The three blocks, from position 12 on, in a buffer of the size the source allocates. */
  method WriteBlocks(chunk: array<byte>, text: seq<byte>, stream: seq<byte>, nbPulses: uint32, ios: seq<byte>,
                     sourceAddress: nat)
    returns (ghost p1: nat, ghost p2: nat, stop: nat)
    requires |text| < METADATA_MAXSIZE && |stream| <= MAX_INPUT_SIZE && |ios| <= MAX_INPUT_SIZE
    requires chunk.Length == TempSize(|stream|, |ios|)
    modifies chunk
    ensures stop + 4 <= chunk.Length
    ensures ChunkBlocks(chunk[..], p1, p2, stop, text, stream, nbPulses, ios)
  {
    hide Read32, HoldsText, HoldsPacked, Blocks, ChunkBlocks, BlockAt;
    var streamAt := WriteMetadata(chunk, 12, text);
    ghost var s1 := chunk[..];
    var ioAt := WritePacked(chunk, streamAt, STREAM_ID, 12, stream, nbPulses, sourceAddress);
    ghost var s2 := chunk[..];
    stop := WritePacked(chunk, ioAt, IO_ID, 8, ios, 0, sourceAddress);
    p1, p2 := streamAt, ioAt;
    BlocksStand(s1, s2, chunk[..], p1, p2, stop, text, stream, nbPulses, ios);
  }

  lemma KeepBlocks(b: seq<byte>, c: seq<byte>, p1: nat, p2: nat, stop: nat, text: seq<byte>, stream: seq<byte>,
                   nbPulses: nat, ios: seq<byte>)
    requires ChunkBlocks(b, p1, p2, stop, text, stream, nbPulses, ios)
    requires stop <= |c| && forall i | 12 <= i < stop :: b[i] == c[i]
    ensures ChunkBlocks(c, p1, p2, stop, text, stream, nbPulses, ios)
  {
    hide Read32, HoldsText, HoldsPacked;
    SameBlock(b, c, 12, p1);
    SameBlock(b, c, p1, p2);
    SameBlock(b, c, p2, stop);
  }

  lemma BlocksHoldDump(c: seq<byte>, p1: nat, p2: nat, stop: nat, text: seq<byte>, stream: seq<byte>, nbPulses: nat,
                       ios: seq<byte>)
    requires ChunkBlocks(c, p1, p2, stop, text, stream, nbPulses, ios)
    ensures stop <= |c| && Blocks(c, 12, stop).Some?
    ensures HoldsDump(Blocks(c, 12, stop).value, text, stream, nbPulses, ios)
  {
    ThreeBlocks(c, 12, p1, p2, stop);
    PayloadsAligned(c, p1, p2, stop);
    hide Read32, HoldsText, HoldsPacked, Blocks, HoldsDump;
    DumpOfThree(BlockAt(c, 12, p1), BlockAt(c, p1, p2), BlockAt(c, p2, stop), text, stream, nbPulses, ios);
  }

  lemma PayloadsAligned(c: seq<byte>, p1: nat, p2: nat, stop: nat)
    requires 20 <= p1 && p1 + 8 <= p2 && p2 + 8 <= stop <= |c| && p1 % 4 == 0 && p2 % 4 == 0 && stop % 4 == 0
    ensures |BlockAt(c, 12, p1).payload| % 4 == 0 && |BlockAt(c, p1, p2).payload| % 4 == 0
    ensures |BlockAt(c, p2, stop).payload| % 4 == 0
  {
    Aligned(12, p1);
    Aligned(p1, p2);
    Aligned(p2, stop);
  }

  lemma Aligned(at: nat, next: nat)
    requires at % 4 == 0 && next % 4 == 0 && at + 8 <= next
    ensures (next - at - 8) % 4 == 0
  {
    assert next - at - 8 == 4 * (next / 4 - at / 4 - 2);
  }

  lemma DumpOfThree(x0: Block, x1: Block, x2: Block, text: seq<byte>, stream: seq<byte>, nbPulses: nat, ios: seq<byte>)
    requires HoldsText(x0, text) && HoldsPacked(x1, STREAM_ID, 12, stream) && HoldsPacked(x2, IO_ID, 8, ios)
    requires |x1.payload| >= 12 && Read32(x1.payload, 8) == nbPulses
    requires |x0.payload| % 4 == 0 && |x1.payload| % 4 == 0 && |x2.payload| % 4 == 0
    ensures HoldsDump([x0, x1, x2], text, stream, nbPulses, ios)
  {
    hide HoldsText, HoldsPacked, Read32;
  }

  /** The bytes of a finished chunk: header, blocks, checksum. */
  lemma Finished(c: seq<byte>, number: nat, p1: nat, p2: nat, stop: nat, text: seq<byte>, stream: seq<byte>,
                 nbPulses: nat, ios: seq<byte>)
    requires ChunkBlocks(c, p1, p2, stop, text, stream, nbPulses, ios) && |c| == stop + 4
    requires Read32(c, 0) == SIGNATURE && Read32(c, 4) == |c| && Read32(c, 8) == number
    requires Sealed(c)
    ensures IsChunk(c, number, text, stream, nbPulses, ios)
  {
    hide Read32, HoldsDump, HoldsText, HoldsPacked, Blocks, BlockAt, Sealed;
    BlocksHoldDump(c, p1, p2, stop, text, stream, nbPulses, ios);
  }

  /** The header and the checksum around the blocks of a chunk. */
  method Finish(chunk: array<byte>, number: uint32, ghost p1: nat, ghost p2: nat, stop: nat, ghost text: seq<byte>,
                ghost stream: seq<byte>, ghost nbPulses: nat, ghost ios: seq<byte>)
    returns (size: nat)
    requires stop + 4 <= chunk.Length < U32 && ChunkBlocks(chunk[..], p1, p2, stop, text, stream, nbPulses, ios)
    modifies chunk
    ensures size <= chunk.Length && IsChunk(chunk[..size], number, text, stream, nbPulses, ios)
  {
    hide Read32, HoldsText, HoldsPacked, Blocks, StoredCrc, Narrow, Crc32.Crc, ChunkBlocks, IsChunk;
    ghost var s1 := chunk[..];
    assert 20 <= stop by { BlocksEnd(s1, p1, p2, stop, text, stream, nbPulses, ios); }
    size := stop + 4;
    var fields: seq<uint32> := [SIGNATURE, size, number];
    WriteFields(chunk, 0, fields);
    ghost var s2 := chunk[..];
    var crc := Crc32.StdCrc32(CRC_SEED, Narrow(chunk[..stop]));
    CopyIn(chunk, stop, StoredCrc(crc), 0, 4);
    ghost var c := chunk[..size];
    KeepBlocks(s1, c, p1, p2, stop, text, stream, nbPulses, ios);
    assert fields[0] == SIGNATURE && fields[1] == size && fields[2] == number;
    assert Read32(s2, 0 + 4 * 0) == fields[0] && Read32(s2, 0 + 4 * 1) == fields[1];
    assert Read32(s2, 0 + 4 * 2) == fields[2];
    SameWord(s2, 0, c, 0);
    SameWord(s2, 4, c, 4);
    SameWord(s2, 8, c, 8);
    assert c[..stop] == s2[..stop];
    assert c[stop..] == StoredCrc(crc);
    Finished(c, number, p1, p2, stop, text, stream, nbPulses, ios);
  }

  lemma BlocksEnd(b: seq<byte>, p1: nat, p2: nat, stop: nat, text: seq<byte>, stream: seq<byte>, nbPulses: nat,
                  ios: seq<byte>)
    requires ChunkBlocks(b, p1, p2, stop, text, stream, nbPulses, ios)
    ensures 20 <= stop
  {
  }

  /**
   Builds the chunk for chunkSize bytes of the dump, whose cells are the even words from base and whose other channel
   the odd ones. The text of the metadata is the caller's.
   */
  method GenerateChunk(buffer: array<Word>, base: nat, chunkSize: nat, lut: array<uint16>, number: uint32,
                       prevDelta: uint32, text: seq<byte>, sourceAddress: nat)
    returns (chunk: array<byte>, size: nat, delta: uint32)
    requires LutReady(lut) && |text| < METADATA_MAXSIZE && chunkSize % 4 == 0 && 4 <= chunkSize < 0x4000_0000
    requires base + 2 * ChunkWords(chunkSize) <= buffer.Length
    ensures fresh(chunk) && size <= chunk.Length
    ensures var gaps := FastGaps(Side(buffer[..], base, ChunkWords(chunkSize)), 0, prevDelta);
            IsChunk(chunk[..size], number, text, EncodeGaps(gaps), |gaps|,
                    WordBytes(Side(buffer[..], base + 1, chunkSize / 4)))
    ensures delta == FastCarry(Side(buffer[..], base, ChunkWords(chunkSize)), 0, prevDelta)
  {
    hide FastGaps, FastCarry, EncodeGaps, ChunkBlocks, IsChunk;
    var data, _, streamSize, nbPulses, carry := FastConvertChunk(buffer, base, chunkSize, lut, prevDelta);
    delta := carry;
    WholeChunk(chunkSize);
    var ios := SplitIo(buffer, base, chunkSize / 4);
    var stream, ioBytes := data[..streamSize], WordBytes(ios[..]);
    chunk := new byte[TempSize(streamSize, |ioBytes|)];
    FastGapsAtMost(Side(buffer[..], base, ChunkWords(chunkSize)), 0, prevDelta);
    ghost var p1, p2;
    var stop;
    p1, p2, stop := WriteBlocks(chunk, text, stream, nbPulses, ioBytes, sourceAddress);
    size := Finish(chunk, number, p1, p2, stop, text, stream, nbPulses, ioBytes);
  }

  lemma {:induction false} FastGapsAtMost(words: seq<Word>, i: nat, delta: uint32)
    requires i <= |words|
    ensures |FastGaps(words, i, delta)| <= |words| - i
    decreases |words| - i
  {
    hide LutEntry;
    if i < |words| {
      var entry: nat := LutEntry(words[i]);
      FastGapsAtMost(words, i + 1, (delta + 16) % U32);
      FastGapsAtMost(words, i + 1, entry % 0x100);
      FastGapsAtMost(words, i + 1, 0);
    }
  }

  // ----- reading a chunk back -----

  /** The contents of a packed block. */
  function Unpack(block: Block, kind: nat, header: nat): Option<seq<byte>>
    requires 8 <= header
  {
    if block.kind != kind || |block.payload| < header then None
    else
      var packed := Read32(block.payload, 0);
      if header + packed > |block.payload| then None
      else
        match Decode(block.payload[header..header + packed], 0, [])
        case None => None
        case Some(contents) => if |contents| == Read32(block.payload, 4) then Some(contents) else None
  }

  datatype Contents = Contents(gaps: seq<nat>, ios: seq<Word>)

  function ReadStreams(stream: Option<seq<byte>>, nbPulses: nat, ios: Option<seq<byte>>): Option<Contents>
  {
    if stream.None? || ios.None? || |ios.value| % 2 != 0 then None
    else
      var gaps := DecodeGaps(stream.value, 0, nbPulses);
      if gaps.None? then None else Some(Contents(gaps.value, BytesWords(ios.value)))
  }

  /** What a reader makes of the three blocks of a chunk. */
  function ReadBlocks(blocks: seq<Block>): Option<Contents>
  {
    if |blocks| != 3 || |blocks[1].payload| < 12 then None
    else
      ReadStreams(Unpack(blocks[1], STREAM_ID, 12), Read32(blocks[1].payload, 8), Unpack(blocks[2], IO_ID, 8))
  }

  /** What a reader makes of a chunk: signature, size and checksum have to be right. */
  function ReadChunk(b: seq<byte>): Option<Contents>
  {
    if |b| < 16 || Read32(b, 0) != SIGNATURE || Read32(b, 4) != |b| || !Sealed(b) then None
    else
      var blocks := Blocks(b, 12, |b| - 4);
      if blocks.None? then None else ReadBlocks(blocks.value)
  }

  lemma PackedUnpacks(block: Block, kind: nat, header: nat, contents: seq<byte>)
    requires HoldsPacked(block, kind, header, contents)
    ensures |block.payload| >= header && Unpack(block, kind, header) == Some(contents)
  {
    hide Decode, Conforms, Read32;
  }

  lemma StreamsRead(gaps: seq<nat>, ios: seq<Word>)
    ensures ReadStreams(Some(EncodeGaps(gaps)), |gaps|, Some(WordBytes(ios))) == Some(Contents(SaturateAll(gaps), ios))
  {
    hide EncodeGaps, DecodeGaps, BytesWords, SaturateAll;
    GapsCode(EncodeGaps(gaps), 0, gaps);
    WordsOfBytes(ios);
  }

  lemma BlocksRead(blocks: seq<Block>, text: seq<byte>, gaps: seq<nat>, ios: seq<Word>)
    requires HoldsDump(blocks, text, EncodeGaps(gaps), |gaps|, WordBytes(ios))
    ensures ReadBlocks(blocks) == Some(Contents(SaturateAll(gaps), ios))
  {
    hide HoldsText, HoldsPacked, Unpack, ReadStreams, Read32, EncodeGaps, WordBytes, SaturateAll;
    PackedUnpacks(blocks[1], STREAM_ID, 12, EncodeGaps(gaps));
    PackedUnpacks(blocks[2], IO_ID, 8, WordBytes(ios));
    StreamsRead(gaps, ios);
  }

  /** A reader gets the gaps and the other channel out of a chunk that was written. */
  lemma ChunkReads(b: seq<byte>, number: nat, text: seq<byte>, gaps: seq<nat>, ios: seq<Word>)
    requires IsChunk(b, number, text, EncodeGaps(gaps), |gaps|, WordBytes(ios))
    ensures ReadChunk(b) == Some(Contents(SaturateAll(gaps), ios))
  {
    hide IsChunk, ReadChunk, HoldsDump, ReadBlocks, Blocks, EncodeGaps, WordBytes, SaturateAll;
    ChunkIsRead(b, number, text, EncodeGaps(gaps), |gaps|, WordBytes(ios));
    BlocksRead(Blocks(b, 12, |b| - 4).value, text, gaps, ios);
  }

  lemma ChunkIsRead(b: seq<byte>, number: nat, text: seq<byte>, stream: seq<byte>, nbPulses: nat, ios: seq<byte>)
    requires IsChunk(b, number, text, stream, nbPulses, ios)
    ensures |b| >= 16 && Blocks(b, 12, |b| - 4).Some?
    ensures HoldsDump(Blocks(b, 12, |b| - 4).value, text, stream, nbPulses, ios)
    ensures ReadChunk(b) == ReadBlocks(Blocks(b, 12, |b| - 4).value)
  {
    hide HoldsDump, ReadBlocks, Blocks, Read32, Sealed;
  }
}
