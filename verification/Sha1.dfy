/** SHA-1 in portions: whatever the portions, the digest is that of the whole message, as RFC 3174 defines it. */
module Sha1 {
  import opened Bytes

  // ----- words -----

  function Rotl(n: bv32, x: bv32): bv32
    requires 0 < n < 32
  {
    (x << n) | (x >> (32 - n))
  }

  function Xor4(a: bv32, b: bv32, c: bv32, d: bv32): bv32 { a ^ b ^ c ^ d }
  function Choose(b: bv32, c: bv32, d: bv32): bv32 { (b & c) | ((!b) & d) }
  function Parity(b: bv32, c: bv32, d: bv32): bv32 { b ^ c ^ d }
  function Majority(b: bv32, c: bv32, d: bv32): bv32 { (b & c) | (b & d) | (c & d) }
  function Add(x: bv32, y: bv32): bv32 { x + y }
  function Add5(a: bv32, b: bv32, c: bv32, d: bv32, e: bv32): bv32 { a + b + c + d + e }

  function Word(b0: bv8, b1: bv8, b2: bv8, b3: bv8): bv32
  {
    ((b0 as bv32) << 24) | ((b1 as bv32) << 16) | ((b2 as bv32) << 8) | (b3 as bv32)
  }

  /** Byte k of a word, counted from the most significant one. */
  function ByteOf(x: bv32, k: nat): bv8
    requires k < 4
  {
    match k
    case 0 => ((x >> 24) & 0xFF) as bv8
    case 1 => ((x >> 16) & 0xFF) as bv8
    case 2 => ((x >> 8) & 0xFF) as bv8
    case _ => (x & 0xFF) as bv8
  }

  function LowByte(n: nat): bv8
  {
    (n % 0x100) as bv8
  }

  // ----- the compression of a block: sections 5 and 6.1 of RFC 3174 -----

  datatype Hash = Hash(a: bv32, b: bv32, c: bv32, d: bv32, e: bv32)

  const INITIAL := Hash(0x67452301, 0xEFCDAB89, 0x98BADCFE, 0x10325476, 0xC3D2E1F0)

  /** The function f(t; B, C, D). */
  function F(t: nat, b: bv32, c: bv32, d: bv32): bv32
  {
    if t < 20 then Choose(b, c, d) else if t < 40 then Parity(b, c, d)
    else if t < 60 then Majority(b, c, d) else Parity(b, c, d)
  }

  /** The constant K(t). */
  function K(t: nat): bv32
  {
    if t < 20 then 0x5A827999 else if t < 40 then 0x6ED9EBA1 else if t < 60 then 0x8F1BBCDC else 0xCA62C1D6
  }

  /** The word W(t). */
  function W(block: seq<bv8>, t: nat): bv32
    requires |block| == 64
  {
    if t < 16 then
      if 4 * t + 3 < 64 then Word(block[4 * t], block[4 * t + 1], block[4 * t + 2], block[4 * t + 3]) else 0
    else Rotl(1, Xor4(W(block, t - 3), W(block, t - 8), W(block, t - 14), W(block, t - 16)))
  }

  function Round(t: nat, w: bv32, h: Hash): Hash
  {
    Hash(Add5(Rotl(5, h.a), F(t, h.b, h.c, h.d), h.e, w, K(t)), h.a, Rotl(30, h.b), h.c, h.d)
  }

  /** The first t rounds. */
  function Rounds(h: Hash, block: seq<bv8>, t: nat): Hash
    requires |block| == 64
  {
    if t == 0 then h else Round(t - 1, W(block, t - 1), Rounds(h, block, t - 1))
  }

  function AddHash(h: Hash, g: Hash): Hash
  {
    Hash(Add(h.a, g.a), Add(h.b, g.b), Add(h.c, g.c), Add(h.d, g.d), Add(h.e, g.e))
  }

  function Compress(h: Hash, block: seq<bv8>): Hash
    requires |block| == 64
  {
    AddHash(h, Rounds(h, block, 80))
  }

  /** The hash behind whole blocks. */
  function Blocks(h: Hash, s: seq<bv8>): Hash
    requires |s| % 64 == 0
    decreases |s|
  {
    if s == [] then h else Blocks(Compress(h, s[..64]), s[64..])
  }

  // ----- padding: section 4 of RFC 3174 -----

  function Bytes4(n: nat): (s: seq<bv8>)
    ensures |s| == 4
  {
    [LowByte(n / 0x100_0000), LowByte(n / 0x1_0000), LowByte(n / 0x100), LowByte(n)]
  }

  /** The eight bytes of a length in bits. */
  function LengthBytes(bits: nat): (s: seq<bv8>)
    ensures |s| == 8
  {
    Bytes4(bits / U32) + Bytes4(bits % U32)
  }

  function Zeros(k: nat): (z: seq<bv8>)
    ensures |z| == k
  {
    Repeat(0, k)
  }

  /** The fewest zeros that leave room for the length. */
  function ZerosFor(n: nat): (k: nat)
    ensures k < 64 && (n + 1 + k + 8) % 64 == 0
  {
    (119 - n % 64) % 64
  }

  function Pad(m: seq<bv8>): (p: seq<bv8>)
    ensures |p| % 64 == 0
  {
    m + [0x80] + Zeros(ZerosFor(|m|)) + LengthBytes(8 * |m|)
  }

  /** The digest of a message. */
  function Digest(m: seq<bv8>): Hash
  {
    Blocks(INITIAL, Pad(m))
  }

  function DigestBytes(h: Hash): seq<bv8>
  {
    [ByteOf(h.a, 0), ByteOf(h.a, 1), ByteOf(h.a, 2), ByteOf(h.a, 3),
     ByteOf(h.b, 0), ByteOf(h.b, 1), ByteOf(h.b, 2), ByteOf(h.b, 3),
     ByteOf(h.c, 0), ByteOf(h.c, 1), ByteOf(h.c, 2), ByteOf(h.c, 3),
     ByteOf(h.d, 0), ByteOf(h.d, 1), ByteOf(h.d, 2), ByteOf(h.d, 3),
     ByteOf(h.e, 0), ByteOf(h.e, 1), ByteOf(h.e, 2), ByteOf(h.e, 3)]
  }

  // ----- the loops that compress a block -----

  /** The first n words of a block. */
  ghost predicate IsSchedule(w: seq<bv32>, block: seq<bv8>, n: nat)
    requires |block| == 64
  {
    n <= |w| && forall i: nat | i < n :: w[i] == W(block, i)
  }

  lemma FirstWord(block: seq<bv8>, t: nat)
    requires |block| == 64 && t < 16
    ensures W(block, t) == Word(block[4 * t], block[4 * t + 1], block[4 * t + 2], block[4 * t + 3])
  {
    hide Word;
  }

  lemma LaterWord(w: seq<bv32>, block: seq<bv8>, t: nat)
    requires |block| == 64 && t >= 16 && IsSchedule(w, block, t)
    ensures W(block, t) == Rotl(1, Xor4(w[t - 3], w[t - 8], w[t - 14], w[t - 16]))
  {
    hide Word, Rotl, Xor4;
  }

  /** The eighty words of a block. */
  method Schedule(block: seq<bv8>) returns (words: seq<bv32>)
    requires |block| == 64
    ensures |words| == 80 && IsSchedule(words, block, 80)
  {
    hide W, Word, Rotl, Xor4;
    var w := new bv32[80](_ => 0);
    for t := 0 to 16
      invariant IsSchedule(w[..], block, t)
    {
      FirstWord(block, t);
      w[t] := Word(block[4 * t], block[4 * t + 1], block[4 * t + 2], block[4 * t + 3]);
    }
    for t := 16 to 80
      invariant IsSchedule(w[..], block, t)
    {
      LaterWord(w[..], block, t);
      w[t] := Rotl(1, Xor4(w[t - 3], w[t - 8], w[t - 14], w[t - 16]));
    }
    words := w[..];
  }

  lemma NextRound(h: Hash, block: seq<bv8>, t: nat, f: bv32, k: bv32)
    requires |block| == 64
    requires var g := Rounds(h, block, t); f == F(t, g.b, g.c, g.d) && k == K(t)
    ensures var g := Rounds(h, block, t);
            Rounds(h, block, t + 1) == Hash(Add5(Rotl(5, g.a), f, g.e, W(block, t), k), g.a, Rotl(30, g.b), g.c, g.d)
  {
    hide W, F, K, Add5, Rotl;
  }

  method ProcessBlock(h: Hash, block: seq<bv8>) returns (r: Hash)
    requires |block| == 64
    ensures r == Compress(h, block)
  {
    hide Rounds, Add5, Rotl, Choose, Parity, Majority, Add;
    var w := Schedule(block);
    var a, b, c, d, e := h.a, h.b, h.c, h.d, h.e;
    assert Rounds(h, block, 0) == h by { NoRounds(h, block); }
    for t := 0 to 20
      invariant Hash(a, b, c, d, e) == Rounds(h, block, t)
    {
      NextRound(h, block, t, Choose(b, c, d), 0x5A827999);
      var temp := Add5(Rotl(5, a), Choose(b, c, d), e, w[t], 0x5A827999);
      e, d, c, b, a := d, c, Rotl(30, b), a, temp;
    }
    for t := 20 to 40
      invariant Hash(a, b, c, d, e) == Rounds(h, block, t)
    {
      NextRound(h, block, t, Parity(b, c, d), 0x6ED9EBA1);
      var temp := Add5(Rotl(5, a), Parity(b, c, d), e, w[t], 0x6ED9EBA1);
      e, d, c, b, a := d, c, Rotl(30, b), a, temp;
    }
    for t := 40 to 60
      invariant Hash(a, b, c, d, e) == Rounds(h, block, t)
    {
      NextRound(h, block, t, Majority(b, c, d), 0x8F1BBCDC);
      var temp := Add5(Rotl(5, a), Majority(b, c, d), e, w[t], 0x8F1BBCDC);
      e, d, c, b, a := d, c, Rotl(30, b), a, temp;
    }
    for t := 60 to 80
      invariant Hash(a, b, c, d, e) == Rounds(h, block, t)
    {
      NextRound(h, block, t, Parity(b, c, d), 0xCA62C1D6);
      var temp := Add5(Rotl(5, a), Parity(b, c, d), e, w[t], 0xCA62C1D6);
      e, d, c, b, a := d, c, Rotl(30, b), a, temp;
    }
    r := Hash(Add(h.a, a), Add(h.b, b), Add(h.c, c), Add(h.d, d), Add(h.e, e));
  }

  lemma NoRounds(h: Hash, block: seq<bv8>)
    requires |block| == 64
    ensures Rounds(h, block, 0) == h
  {
  }

  // ----- whole blocks and portions -----

  lemma {:induction false} BlocksConcat(h: Hash, a: seq<bv8>, b: seq<bv8>)
    requires |a| % 64 == 0 && |b| % 64 == 0
    ensures |a + b| % 64 == 0
    ensures Blocks(h, a + b) == Blocks(Blocks(h, a), b)
    decreases |a|
  {
    hide Compress;
    if a == [] {
      assert a + b == b;
    } else {
      assert (a + b)[..64] == a[..64] && (a + b)[64..] == a[64..] + b;
      BlocksConcat(Compress(h, a[..64]), a[64..], b);
    }
  }

  lemma OneBlock(h: Hash, block: seq<bv8>)
    requires |block| == 64
    ensures Blocks(h, block) == Compress(h, block)
  {
    hide Compress;
    assert block[..64] == block && block[64..] == [];
  }

  /** The part of a message in whole blocks. */
  function Whole(n: nat): (k: nat)
    ensures k <= n && k % 64 == 0 && n - k == n % 64
  {
    n - n % 64
  }

  /** The whole blocks of a message have gone into h, and the rest stands in the block. */
  ghost predicate Absorbed(m: seq<bv8>, h: Hash, block: seq<bv8>, index: nat)
  {
    && index == |m| % 64 && |block| == 64
    && h == Blocks(INITIAL, m[..Whole(|m|)]) && block[..index] == m[Whole(|m|)..]
  }

  /** One more byte that does not fill the block. */
  lemma AbsorbByte(m: seq<bv8>, h: Hash, block: seq<bv8>, index: nat, x: bv8)
    requires Absorbed(m, h, block, index) && index < 63
    ensures Absorbed(m + [x], h, block[index := x], index + 1)
  {
    hide Blocks;
    assert Whole(|m| + 1) == Whole(|m|);
    assert (m + [x])[..Whole(|m|)] == m[..Whole(|m|)];
    assert block[index := x][..index + 1] == block[..index] + [x];
    assert (m + [x])[Whole(|m|)..] == m[Whole(|m|)..] + [x];
  }

  /** One more byte that does. */
  lemma AbsorbBlock(m: seq<bv8>, h: Hash, block: seq<bv8>, x: bv8)
    requires Absorbed(m, h, block, 63)
    ensures Absorbed(m + [x], Compress(h, block[63 := x]), block[63 := x], 0)
  {
    hide Blocks, Compress;
    var full := block[63 := x];
    var k := Whole(|m|);
    assert full == m[k..] + [x];
    assert m + [x] == m[..k] + full;
    assert Whole(|m| + 1) == |m| + 1;
    assert (m + [x])[..|m| + 1] == m + [x] && (m + [x])[|m| + 1..] == [] && full[..0] == [];
    BlocksConcat(INITIAL, m[..k], full);
    OneBlock(h, full);
  }

  lemma ZerosJoin(j: nat, k: nat)
    ensures Zeros(j) + Zeros(k) == Zeros(j + k)
  {
  }

  /** Padding that fits the block that was begun. */
  lemma PadsInOne(m: seq<bv8>, h: Hash, block: seq<bv8>, index: nat, last: seq<bv8>)
    requires Absorbed(m, h, block, index) && index <= 55
    requires last == ((block[..index] + [0x80]) + Zeros(55 - index)) + LengthBytes(8 * |m|)
    ensures Digest(m) == Compress(h, last)
  {
    hide Blocks, Compress, LengthBytes;
    var k := Whole(|m|);
    assert m == m[..k] + m[k..];
    assert ZerosFor(|m|) == 55 - index;
    assert Pad(m) == m[..k] + last;
    BlocksConcat(INITIAL, m[..k], last);
    OneBlock(h, last);
  }

  /** Padding that takes a second block. */
  lemma PadsInTwo(m: seq<bv8>, h: Hash, block: seq<bv8>, index: nat, first: seq<bv8>, last: seq<bv8>)
    requires Absorbed(m, h, block, index) && 55 < index < 64
    requires first == (block[..index] + [0x80]) + Zeros(63 - index)
    requires last == Zeros(56) + LengthBytes(8 * |m|)
    ensures Digest(m) == Compress(Compress(h, first), last)
  {
    hide Blocks, Compress, LengthBytes, Zeros;
    var k := Whole(|m|);
    assert m == m[..k] + m[k..];
    assert ZerosFor(|m|) == 119 - index;
    ZerosJoin(63 - index, 56);
    assert Pad(m) == m[..k] + (first + last);
    BlocksConcat(INITIAL, m[..k], first + last);
    BlocksConcat(h, first, last);
    OneBlock(h, first);
    OneBlock(Compress(h, first), last);
  }

  const TOO_LONG := 1
  const STATE_ERROR := 3

  class Context {
    const messageBlock: array<bv8>
    var index: nat
    var lengthLow: uint32
    var lengthHigh: uint32
    var hash: Hash
    var computed: bool
    var corrupted: nat

    ghost predicate Valid()
      reads this
    {
      messageBlock.Length == 64 && index < 64
    }

    /** The message m has gone in so far. */
    ghost predicate Holds(m: seq<bv8>)
      reads this, messageBlock
    {
      && Valid() && !computed && corrupted == 0
      && lengthHigh * U32 + lengthLow == 8 * |m|
      && Absorbed(m, hash, messageBlock[..], index)
    }

    /** SHA1Reset. */
    constructor ()
      ensures fresh(messageBlock) && Holds([])
    {
      messageBlock := new bv8[64](_ => 0);
      index, lengthLow, lengthHigh, hash, computed, corrupted := 0, 0, 0, INITIAL, false, 0;
    }

    /** Compresses the block, which is full. */
    method ProcessMessageBlock()
      requires messageBlock.Length == 64
      modifies this`hash, this`index
      ensures hash == Compress(old(hash), messageBlock[..]) && index == 0
    {
      hash := ProcessBlock(hash, messageBlock[..]);
      index := 0;
    }

    /** Counts eight bits; the message is too long when both counters have run over. */
    method CountByte()
      requires lengthLow % 8 == 0
      modifies this`lengthLow, this`lengthHigh, this`corrupted
      ensures var bits := old(lengthHigh) * U32 + old(lengthLow) + 8;
              bits < U32 * U32 ==> lengthHigh * U32 + lengthLow == bits && corrupted == old(corrupted)
      ensures old(lengthHigh) * U32 + old(lengthLow) + 8 == U32 * U32 ==> corrupted == TOO_LONG
    {
      var low := lengthLow + 8;
      lengthLow := low % U32;
      if lengthLow == 0 {
        lengthHigh := (lengthHigh + 1) % U32;
        if lengthHigh == 0 {
          corrupted := TOO_LONG;
        }
      }
    }

    /** One byte of the message; counting it and storing it have no field in common. */
    method InputByte(x: bv8, ghost m: seq<bv8>)
      requires Holds(m)
      modifies this, messageBlock
      ensures Valid() && computed == old(computed)
      ensures 8 * (|m| + 1) < U32 * U32 ==> Holds(m + [x])
      ensures 8 * (|m| + 1) == U32 * U32 ==> corrupted == TOO_LONG
    {
      hide Absorbed, Compress;
      IndexFits(m, hash, messageBlock[..], index);
      CountByte();
      StoreByte(x, m);
    }

    /** The byte joins the block, which is compressed when it is full. */
    method StoreByte(x: bv8, ghost m: seq<bv8>)
      requires Valid() && Absorbed(m, hash, messageBlock[..], index)
      modifies this`index, this`hash, messageBlock
      ensures Valid() && Absorbed(m + [x], hash, messageBlock[..], index)
    {
      hide Absorbed, Compress;
      ghost var block := messageBlock[..];
      if index == 63 {
        AbsorbBlock(m, hash, block, x);
      } else {
        AbsorbByte(m, hash, block, index, x);
        IndexFits(m + [x], hash, block[index := x], index + 1);
      }
      messageBlock[index] := x;
      assert messageBlock[..] == block[old(index) := x];
      index := index + 1;
      if index == 64 {
        ProcessMessageBlock();
      }
    }

    /**
     SHA1Input: the next portion of the message. Nothing is taken after the digest was asked for, and a message of 2^64
     bits or more leaves the context marked.
     */
    method Input(bytes: seq<bv8>, ghost m: seq<bv8>) returns (code: nat)
      requires Valid() && 8 * |m| < U32 * U32 && (computed || corrupted != 0 || Holds(m))
      modifies this, messageBlock
      ensures Valid()
      ensures bytes == [] ==> code == 0 && unchanged(this) && unchanged(messageBlock)
      ensures bytes != [] && old(computed) ==> code == corrupted == STATE_ERROR
      ensures bytes != [] && !old(computed) && old(corrupted) != 0 ==> code == corrupted == old(corrupted)
      ensures old(Holds(m)) && 8 * (|m| + |bytes|) < U32 * U32 ==> code == 0 && Holds(m + bytes)
      ensures old(Holds(m)) && 8 * (|m| + |bytes|) >= U32 * U32 ==> corrupted == TOO_LONG
    {
      hide Absorbed;
      assert m + [] == m;
      if bytes == [] {
        return 0;
      }
      if computed {
        corrupted := STATE_ERROR;
        return STATE_ERROR;
      }
      if corrupted != 0 {
        return corrupted;
      }
      var i := 0;
      while i < |bytes| && corrupted == 0
        invariant 0 <= i <= |bytes| && Valid() && !computed
        invariant corrupted == 0 ==> Holds(m + bytes[..i]) && 8 * (|m| + i) < U32 * U32
        invariant corrupted != 0 ==> corrupted == TOO_LONG && 8 * (|m| + i) == U32 * U32
      {
        InputByte(bytes[i], m + bytes[..i]);
        assert (m + bytes[..i]) + [bytes[i]] == m + bytes[..i + 1];
        i := i + 1;
      }
      assert bytes[..|bytes|] == bytes;
      return 0;
    }

    /** 0x80 and zeros up to a position of the block. */
    method StartPadding(stop: nat)
      requires Valid() && index < stop <= 64
      modifies this`index, messageBlock
      ensures index == stop
      ensures messageBlock[..stop] == (old(messageBlock[..index]) + [0x80]) + Zeros(stop - old(index) - 1)
    {
      ghost var n := index;
      messageBlock[index] := 0x80;
      index := index + 1;
      while index < stop
        invariant n + 1 <= index <= stop && messageBlock.Length == 64
        invariant messageBlock[..index] == (old(messageBlock[..n]) + [0x80]) + Zeros(index - n - 1)
      {
        messageBlock[index] := 0;
        index := index + 1;
      }
    }

    /** Zeros up to the length, in a new block. */
    method PadNewBlock()
      requires Valid() && index == 0
      modifies this`index, messageBlock
      ensures index == 56 && messageBlock[..56] == Zeros(56)
    {
      while index < 56
        invariant 0 <= index <= 56 && messageBlock.Length == 64 && messageBlock[..index] == Zeros(index)
      {
        messageBlock[index] := 0;
        index := index + 1;
      }
    }

    method StoreWord(at: nat, n: uint32)
      requires messageBlock.Length == 64 && at + 4 <= 64
      modifies messageBlock
      ensures messageBlock[..at + 4] == old(messageBlock[..at]) + Bytes4(n)
    {
      hide LowByte;
      messageBlock[at], messageBlock[at + 1] := LowByte(n / 0x100_0000), LowByte(n / 0x1_0000);
      messageBlock[at + 2], messageBlock[at + 3] := LowByte(n / 0x100), LowByte(n);
    }

    /** The length of the message as the last eight bytes. */
    method StoreLength(ghost bits: nat)
      requires messageBlock.Length == 64 && bits == lengthHigh * U32 + lengthLow
      modifies messageBlock
      ensures messageBlock[..] == old(messageBlock[..56]) + LengthBytes(bits)
    {
      hide Bytes4;
      HighAndLow(lengthHigh, lengthLow);
      StoreWord(56, lengthHigh);
      StoreWord(60, lengthLow);
      assert messageBlock[..] == messageBlock[..64];
    }

    /** SHA1PadMessage. */
    method PadMessage(ghost m: seq<bv8>)
      requires Holds(m)
      modifies this`index, this`hash, messageBlock
      ensures hash == Digest(m)
    {
      hide Absorbed, Compress, LengthBytes, Zeros, Digest;
      IndexFits(m, hash, messageBlock[..], index);
      ghost var h, block, n := hash, messageBlock[..], index;
      if index > 55 {
        StartPadding(64);
        ghost var first := messageBlock[..];
        assert messageBlock[..64] == first && block[..n] == old(messageBlock[..n]);
        ProcessMessageBlock();
        PadNewBlock();
        StoreLength(8 * |m|);
        ghost var last := messageBlock[..];
        ProcessMessageBlock();
        PadsInTwo(m, h, block, n, first, last);
      } else {
        StartPadding(56);
        assert block[..n] == old(messageBlock[..n]);
        StoreLength(8 * |m|);
        ghost var last := messageBlock[..];
        ProcessMessageBlock();
        PadsInOne(m, h, block, n, last);
      }
    }

    /** SHA1Result: the digest, the first time and every other time. */
    method Result(ghost m: seq<bv8>) returns (code: nat, digest: seq<bv8>)
      requires corrupted != 0 || Holds(m) || (computed && hash == Digest(m))
      modifies this, messageBlock
      ensures code == old(corrupted)
      ensures code != 0 ==> unchanged(this)
      ensures code == 0 ==> digest == DigestBytes(Digest(m)) && computed && corrupted == 0 && hash == Digest(m)
    {
      hide Digest, Absorbed;
      if corrupted != 0 {
        return corrupted, [];
      }
      if !computed {
        PadMessage(m);
        forall i | 0 <= i < 64 {
          messageBlock[i] := 0;
        }
        lengthLow, lengthHigh := 0, 0;
        computed := true;
      }
      return 0, DigestBytes(hash);
    }
  }

  lemma HighAndLow(high: uint32, low: uint32)
    ensures (high * U32 + low) / U32 == high && (high * U32 + low) % U32 == low
  {
  }

  lemma IndexFits(m: seq<bv8>, h: Hash, block: seq<bv8>, index: nat)
    requires Absorbed(m, h, block, index)
    ensures index < 64 && |block| == 64
  {
  }

  lemma ConcatSplit(portions: seq<seq<bv8>>, i: nat)
    requires i < |portions|
    ensures Concat(portions[..i + 1]) == Concat(portions[..i]) + portions[i]
    ensures |Concat(portions[..i + 1])| <= |Concat(portions)|
  {
    assert portions[..i + 1] == portions[..i] + [portions[i]];
    ConcatLast(portions[..i], portions[i]);
    ConcatGrows(portions, i + 1);
  }

  lemma {:induction false} ConcatGrows(portions: seq<seq<bv8>>, n: nat)
    requires n <= |portions|
    ensures |Concat(portions[..n])| <= |Concat(portions)|
    decreases n
  {
    if n > 0 {
      ConcatGrows(portions[1..], n - 1);
      assert portions[..n][1..] == portions[1..][..n - 1];
    }
  }

  /** However a message is cut into portions, the digest is that of the message. */
  method DigestOfPortions(portions: seq<seq<bv8>>) returns (code: nat, digest: seq<bv8>)
    requires 8 * |Concat(portions)| < U32 * U32
    ensures code == 0 && digest == DigestBytes(Digest(Concat(portions)))
  {
    hide Digest, Absorbed, DigestBytes;
    var context := new Context();
    var i := 0;
    while i < |portions|
      invariant 0 <= i <= |portions| && fresh(context) && fresh(context.messageBlock)
      invariant context.Holds(Concat(portions[..i]))
    {
      ConcatSplit(portions, i);
      code := context.Input(portions[i], Concat(portions[..i]));
      i := i + 1;
    }
    assert portions[..i] == portions;
    code, digest := context.Result(Concat(portions));
  }
}
