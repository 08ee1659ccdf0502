/** Base64 of section 5.2 of RFC 1341, with a line feed every 72 characters. */
module Base64 {
  import opened Bytes

  const PAD: byte := 61
  const LINE_FEED: byte := 10
  const NO_VALUE := 0x80
  const LINE := 72

  // ----- the alphabet -----

  /** A to Z, a to z, 0 to 9, + and /. */
  function Char(v: nat): (c: byte)
    requires v < 64
    ensures c != PAD && c != LINE_FEED
  {
    if v < 26 then 65 + v
    else if v < 52 then 97 + (v - 26)
    else if v < 62 then 48 + (v - 52)
    else if v == 62 then 43
    else 47
  }

  /** The table of the decoder: the pad counts as 0, everything outside the alphabet as NO_VALUE. */
  function Value(c: byte): (v: nat)
    ensures v == NO_VALUE || v < 64
  {
    if 65 <= c <= 90 then c - 65
    else if 97 <= c <= 122 then c - 97 + 26
    else if 48 <= c <= 57 then c - 48 + 52
    else if c == 43 then 62
    else if c == 47 then 63
    else if c == PAD then 0
    else NO_VALUE
  }

  const UPPER := "ABCDEFGHIJKLMNOPQRSTUVWXYZ"
  const LOWER := "abcdefghijklmnopqrstuvwxyz"
  const DIGITS := "0123456789+/"

  lemma UpperAt(v: nat)
    requires v < 26
    ensures UPPER[v] as int == 65 + v && LOWER[v] as int == 97 + v
  {
  }

  /** Table 1 of RFC 4648: the letters, the digits, + and /. */
  lemma Alphabet(v: nat)
    requires v < 64
    ensures |UPPER + LOWER + DIGITS| == 64 && Char(v) == (UPPER + LOWER + DIGITS)[v] as int
  {
    if v < 26 {
      UpperAt(v);
    } else if v < 52 {
      UpperAt(v - 26);
    } else {
      assert DIGITS[v - 52] as int == Char(v);
    }
  }

  lemma ValueOfChar(v: nat)
    requires v < 64
    ensures Value(Char(v)) == v
  {
  }

  lemma CharOfValue(c: byte)
    requires Value(c) != NO_VALUE && c != PAD
    ensures Char(Value(c)) == c
  {
  }

  /** The table, filled from the alphabet. */
  method BuildTable() returns (table: array<nat>)
    ensures fresh(table) && table.Length == 0x100
    ensures forall c: byte :: table[c] == Value(c)
  {
    hide Char, Value;
    table := new nat[0x100](_ => NO_VALUE);
    var i := 0;
    while i < 64
      invariant 0 <= i <= 64
      invariant forall v: nat | v < i :: table[Char(v)] == v
      invariant forall c: byte | c == PAD || Value(c) == NO_VALUE || Value(c) >= i :: table[c] == NO_VALUE
    {
      forall v: nat | v <= i
        ensures Value(Char(v)) == v
      {
        ValueOfChar(v);
      }
      table[Char(i)] := i;
      i := i + 1;
    }
    table[PAD] := 0;
    forall c: byte
      ensures table[c] == Value(c)
    {
      PadValue();
      if Value(c) != NO_VALUE && c != PAD {
        CharOfValue(c);
      }
    }
  }

  lemma PadValue()
    ensures Value(PAD) == 0 && Value(LINE_FEED) == NO_VALUE
  {
  }

  // ----- encoding -----

  function Quad(a: byte, b: byte, c: byte): seq<byte>
  {
    [Char(a / 4), Char(a % 4 * 16 + b / 16), Char(b % 16 * 4 + c / 64), Char(c % 64)]
  }

  function LastQuad(x: seq<byte>): seq<byte>
    requires |x| == 1 || |x| == 2
  {
    if |x| == 1 then [Char(x[0] / 4), Char(x[0] % 4 * 16), PAD, PAD]
    else [Char(x[0] / 4), Char(x[0] % 4 * 16 + x[1] / 16), Char(x[1] % 16 * 4), PAD]
  }

  /** Four characters are the digits to base 64 of three bytes; with fewer bytes, pads stand for the last of them. */
  lemma QuadNumber(a: byte, b: byte, c: byte)
    ensures var q := Quad(a, b, c);
            && |q| == 4
            && ((Value(q[0]) * 64 + Value(q[1])) * 64 + Value(q[2])) * 64 + Value(q[3]) == (a * 0x100 + b) * 0x100 + c
    ensures LastQuad([a]) == Quad(a, 0, 0)[..2] + [PAD, PAD]
    ensures LastQuad([a, b]) == Quad(a, b, 0)[..3] + [PAD]
  {
    hide Char, Value;
    ValueOfChar(a / 4);
    ValueOfChar(a % 4 * 16 + b / 16);
    ValueOfChar(b % 16 * 4 + c / 64);
    ValueOfChar(c % 64);
    QuadDigits(a, b, c);
  }

  lemma QuadDigits(a: nat, b: nat, c: nat)
    requires b < 0x100
    ensures ((a / 4 * 64 + (a % 4 * 16 + b / 16)) * 64 + (b % 16 * 4 + c / 64)) * 64 + c % 64
            == (a * 0x100 + b) * 0x100 + c
  {
    assert a == a / 4 * 4 + a % 4 && b == b / 16 * 16 + b % 16 && c == c / 64 * 64 + c % 64;
  }

  /** What is written for x when the line already has so many characters. */
  function EncodeFrom(x: seq<byte>, line: nat): seq<byte>
    decreases |x|
  {
    if |x| >= 3 then
      if line + 4 >= LINE then Quad(x[0], x[1], x[2]) + ([LINE_FEED] + EncodeFrom(x[3..], 0))
      else Quad(x[0], x[1], x[2]) + EncodeFrom(x[3..], line + 4)
    else if x != [] then LastQuad(x) + [LINE_FEED]
    else if line != 0 then [LINE_FEED] else []
  }

  function Quads(n: nat): nat
  {
    (n + 2) / 3
  }

  /** The line feeds behind so many characters. */
  function Feeds(chars: nat): nat
  {
    chars / LINE + if chars % LINE == 0 then 0 else 1
  }

  /** A line holds 72 characters, those of 54 bytes. */
  lemma LineOf72()
    ensures Feeds(0) == 0 && Feeds(4) == Feeds(72) == 1 && Feeds(76) == 2 && 4 * Quads(54) == 72
  {
  }

  lemma FullLine(chars: nat)
    ensures Feeds(LINE + chars) == 1 + Feeds(chars)
  {
    assert (LINE + chars) / LINE == 1 + chars / LINE && (LINE + chars) % LINE == chars % LINE;
  }

  lemma QuadsOf(n: nat)
    ensures n >= 3 ==> Quads(n) == 1 + Quads(n - 3)
    ensures 0 < n < 3 ==> Quads(n) == 1
    ensures Quads(0) == 0
  {
  }

  lemma FirstLine(chars: nat)
    requires chars <= LINE
    ensures Feeds(chars) == if chars == 0 then 0 else 1
  {
  }

  /** Four characters for three bytes, and a line feed behind each line. */
  lemma {:induction false} EncodedLength(x: seq<byte>, line: nat)
    requires line % 4 == 0 && line < LINE
    ensures |EncodeFrom(x, line)| == 4 * Quads(|x|) + Feeds(line + 4 * Quads(|x|))
    decreases |x|
  {
    hide Quad, LastQuad, Quads, Feeds;
    QuadsOf(|x|);
    if |x| >= 3 {
      QuadLength(x[0], x[1], x[2]);
      if line + 4 >= LINE {
        EncodedLength(x[3..], 0);
        FullLine(4 * Quads(|x| - 3));
      } else {
        EncodedLength(x[3..], line + 4);
      }
    } else if x != [] {
      LastQuadLength(x);
      FirstLine(line + 4);
    } else {
      FirstLine(line);
    }
  }

  lemma QuadLength(a: byte, b: byte, c: byte)
    ensures |Quad(a, b, c)| == 4
  {
  }

  lemma LastQuadLength(x: seq<byte>)
    requires |x| == 1 || |x| == 2
    ensures |LastQuad(x)| == 4
  {
  }

  /** The buffer size computed before encoding. */
  function OutputSize(n: nat): nat
  {
    var chars := n * 4 / 3 + 4;
    chars + chars / LINE + 1
  }

  /** Characters, line feeds and the NUL at the end fit the buffer. */
  lemma EncodedFits(x: seq<byte>)
    ensures |EncodeFrom(x, 0)| + 1 <= OutputSize(|x|)
  {
    EncodedLength(x, 0);
    var q := Quads(|x|);
    assert 4 * q <= |x| * 4 / 3 + 3;
  }

  /** The same size in the arithmetic of size_t, which has 32 bits on the board. */
  function OutputSize32(n: uint32): uint32
  {
    var chars := (n * 4 % U32 / 3 + 4) % U32;
    (chars + chars / LINE + 1) % U32
  }

  lemma SizeBound(n: nat)
    ensures n <= OutputSize(n)
    ensures n < 0x4000_0000 ==> OutputSize(n) < 0x4000_0000 + n && OutputSize(n) < U32
  {
    var third := n * 4 / 3;
    assert n <= third <= n + n / 3;
    assert (third + 4) / LINE <= (n + n / 3 + 4) / LINE;
  }

  /** Only the last 30 bits of the length have a part in its size. */
  lemma SizeWraps(n: uint32, k: nat, r: nat)
    requires n == 0x4000_0000 * k + r && r < 0x4000_0000
    ensures OutputSize32(n) == OutputSize(r)
  {
    hide OutputSize, OutputSize32;
    SizeBound(r);
    Reduced(n * 4, k, 4 * r);
    SameSize(n, r);
  }

  lemma SameSize(n: uint32, r: nat)
    requires n * 4 % U32 == r * 4 && OutputSize(r) < U32
    ensures OutputSize32(n) == OutputSize(r)
  {
    var chars := r * 4 / 3 + 4;
    Reduced(chars, 0, chars);
    Reduced(OutputSize(r), 0, OutputSize(r));
  }

  lemma Reduced(m: nat, k: nat, r: nat)
    requires m == U32 * k + r && r < U32
    ensures m % U32 == r
  {
  }

  /** The check for a size smaller than the input finds exactly the inputs whose size does not fit. */
  lemma OverflowFound(n: uint32)
    ensures OutputSize32(n) < n <==> n >= 0x4000_0000
    ensures OutputSize32(n) == OutputSize(n) <==> n < 0x4000_0000
  {
    hide OutputSize, OutputSize32;
    var k, r := n / 0x4000_0000, n % 0x4000_0000;
    SizeWraps(n, k, r);
    SizeBound(r);
    SizeBound(n);
  }

  lemma EncodeStep(x: seq<byte>, i: nat, line: nat)
    requires i + 3 <= |x|
    ensures EncodeFrom(x[i..], line)
            == Quad(x[i], x[i + 1], x[i + 2])
               + if line + 4 >= LINE then [LINE_FEED] + EncodeFrom(x[i + 3..], 0) else EncodeFrom(x[i + 3..], line + 4)
  {
    hide Quad;
    assert x[i..][3..] == x[i + 3..];
  }

  method Emit(out: array<byte>, pos: nat, s: seq<byte>) returns (next: nat)
    requires pos + |s| <= out.Length
    modifies out
    ensures next == pos + |s| && out[..next] == old(out[..pos]) + s
  {
    forall i | 0 <= i < |s| {
      out[pos + i] := s[i];
    }
    next := pos + |s|;
  }

  /** The last one or two bytes, and the line feed behind an unfinished line. */
  method EmitEnd(out: array<byte>, pos: nat, x: seq<byte>, line0: nat) returns (next: nat)
    requires |x| < 3 && pos + |EncodeFrom(x, line0)| <= out.Length
    modifies out
    ensures next == pos + |EncodeFrom(x, line0)| && out[..next] == old(out[..pos]) + EncodeFrom(x, line0)
  {
    hide LastQuad, EncodeFrom;
    EncodeEnd(x, line0);
    var line := line0;
    next := pos;
    if x != [] {
      next := Emit(out, next, LastQuad(x));
      line := line + 4;
    }
    if line != 0 {
      next := Emit(out, next, [LINE_FEED]);
    }
  }

  method Base64Encode(src: seq<byte>) returns (result: array?<byte>, outLen: nat)
    requires |src| < U32
    ensures result == null <==> |src| >= 0x4000_0000
    ensures result != null ==>
              && fresh(result) && outLen < result.Length == OutputSize(|src|)
              && result[..outLen] == EncodeFrom(src, 0) && result[outLen] == 0
  {
    hide Quad, LastQuad, EncodeFrom, Char, OutputSize, OutputSize32;
    OverflowFound(|src|);
    if OutputSize32(|src|) < |src| {
      return null, 0;
    }
    var out := new byte[OutputSize32(|src|)](_ => 0);
    EncodedFits(src);
    ghost var all := EncodeFrom(src, 0);
    var i, pos, line := 0, 0, 0;
    assert src[0..] == src;
    while |src| - i >= 3
      invariant 0 <= i <= |src| && 0 <= pos <= |all| && line % 4 == 0 && 0 <= line < LINE
      invariant out[..pos] + EncodeFrom(src[i..], line) == all
    {
      EncodeStep(src, i, line);
      var quad := Quad(src[i], src[i + 1], src[i + 2]);
      ghost var before, rest := out[..pos], if line + 4 >= LINE then [LINE_FEED] + EncodeFrom(src[i + 3..], 0)
                                            else EncodeFrom(src[i + 3..], line + 4);
      assert before + (quad + rest) == (before + quad) + rest;
      pos := Emit(out, pos, quad);
      i := i + 3;
      line := line + 4;
      if line >= LINE {
        ghost var quads := out[..pos];
        assert quads + ([LINE_FEED] + EncodeFrom(src[i..], 0)) == (quads + [LINE_FEED]) + EncodeFrom(src[i..], 0);
        pos := Emit(out, pos, [LINE_FEED]);
        line := 0;
      }
    }
    pos := EmitEnd(out, pos, src[i..], line);
    ghost var encoded := out[..pos];
    out[pos] := 0;
    assert out[..pos] == encoded;
    return out, pos;
  }

  lemma EncodeEnd(x: seq<byte>, line: nat)
    requires |x| < 3
    ensures x != [] ==> EncodeFrom(x, line) == LastQuad(x) + [LINE_FEED]
    ensures x == [] ==> EncodeFrom(x, line) == if line != 0 then [LINE_FEED] else []
  {
  }

  // ----- decoding -----

  function CountValues(s: seq<byte>): nat
  {
    if s == [] then 0 else (if Value(s[0]) != NO_VALUE then 1 else 0) + CountValues(s[1..])
  }

  /** The three bytes of four values. */
  function Triple(b: seq<nat>): (t: seq<byte>)
    requires |b| == 4 && forall i | 0 <= i < 4 :: b[i] < 64
    ensures |t| == 3
  {
    [b[0] * 4 + b[1] / 16, b[1] * 16 % 0x100 + b[2] / 4, b[2] * 64 % 0x100 + b[3]]
  }

  predicate Values(b: seq<nat>)
  {
    |b| < 4 && forall i | 0 <= i < |b| :: b[i] < 64
  }

  /** The bytes of the characters in s, behind some values and pads of the block under way. */
  function DecodeChars(s: seq<byte>, block: seq<nat>, pad: nat): Option<seq<byte>>
    requires Values(block)
    decreases |s|
  {
    if s == [] then Some([])
    else if Value(s[0]) == NO_VALUE then DecodeChars(s[1..], block, pad)
    else
      var b, p := block + [Value(s[0])], pad + if s[0] == PAD then 1 else 0;
      if |b| < 4 then DecodeChars(s[1..], b, p)
      else if p > 2 then None
      else if p > 0 then Some(Triple(b)[..3 - p])
      else
        var rest := DecodeChars(s[1..], [], 0);
        if rest.None? then None else Some(Triple(b) + rest.value)
  }

  function Decode(s: seq<byte>): Option<seq<byte>>
  {
    var count := CountValues(s);
    if count == 0 || count % 4 != 0 then None else DecodeChars(s, [], 0)
  }

  function Prepend(a: seq<byte>, more: Option<seq<byte>>): Option<seq<byte>>
  {
    if more.None? then None else Some(a + more.value)
  }

  lemma CountStep(s: seq<byte>, i: nat)
    requires i < |s|
    ensures CountValues(s[i..]) == (if Value(s[i]) != NO_VALUE then 1 else 0) + CountValues(s[i + 1..])
  {
    assert s[i..][1..] == s[i + 1..];
  }

  method CountCharacters(src: seq<byte>, table: array<nat>) returns (count: nat)
    requires table.Length == 0x100 && forall c: byte :: table[c] == Value(c)
    ensures count == CountValues(src)
  {
    hide Value, CountValues;
    count := 0;
    var i := 0;
    assert src[0..] == src;
    while i < |src|
      invariant 0 <= i <= |src| && count + CountValues(src[i..]) == CountValues(src)
    {
      CountStep(src, i);
      if table[src[i]] != NO_VALUE {
        count := count + 1;
      }
      i := i + 1;
    }
    assert CountValues(src[i..]) == 0 by { NothingDecoded(); assert src[i..] == []; }
  }

  /** One character of the decoder loop: what it adds, and whether it is the last one. */
  lemma DecodeStep(s: seq<byte>, i: nat, block: seq<nat>, pad: nat)
    requires i < |s| && Values(block)
    ensures Value(s[i]) == NO_VALUE ==> DecodeChars(s[i..], block, pad) == DecodeChars(s[i + 1..], block, pad)
    ensures var b, p := block + [Value(s[i])], pad + if s[i] == PAD then 1 else 0;
            Value(s[i]) != NO_VALUE ==>
              && (|b| < 4 ==> DecodeChars(s[i..], block, pad) == DecodeChars(s[i + 1..], b, p))
              && (|b| == 4 && p == 0 ==>
                    DecodeChars(s[i..], block, pad) == Prepend(Triple(b), DecodeChars(s[i + 1..], [], 0)))
              && (|b| == 4 && p > 2 ==> DecodeChars(s[i..], block, pad) == None)
              && (|b| == 4 && 0 < p <= 2 ==> DecodeChars(s[i..], block, pad) == Some(Triple(b)[..3 - p]))
  {
    hide Value, Triple;
    assert s[i..][1..] == s[i + 1..];
  }

  /** At character i, with some values and pads of the block under way, out is what should have been decoded so far. */
  ghost predicate Decoding(src: seq<byte>, i: nat, block: seq<nat>, pad: nat, out: seq<byte>)
  {
    i <= |src| && Values(block) && Prepend(out, DecodeChars(src[i..], block, pad)) == DecodeChars(src, [], 0)
  }

  lemma DecodingStarts(src: seq<byte>)
    ensures Decoding(src, 0, [], 0, [])
  {
    hide DecodeChars;
    assert src[0..] == src;
    PrependNothing(src);
  }

  lemma DecodingEnds(src: seq<byte>, block: seq<nat>, pad: nat, out: seq<byte>)
    requires Decoding(src, |src|, block, pad, out)
    ensures DecodeChars(src, [], 0) == Some(out)
  {
    LeftOver(src[|src|..], block, pad);
    hide DecodeChars;
    assert out + [] == out;
  }

  /** One character that is passed over, or that does not fill the block. */
  lemma DecodingMore(src: seq<byte>, i: nat, block: seq<nat>, pad: nat, out: seq<byte>)
    requires Decoding(src, i, block, pad, out) && i < |src|
    ensures Value(src[i]) == NO_VALUE ==> Decoding(src, i + 1, block, pad, out)
    ensures Value(src[i]) != NO_VALUE && |block| < 3 ==>
              Decoding(src, i + 1, block + [Value(src[i])], pad + if src[i] == PAD then 1 else 0, out)
  {
    hide Value, DecodeChars, Prepend;
    DecodeStep(src, i, block, pad);
  }

  /** One that does. */
  lemma DecodingQuad(src: seq<byte>, i: nat, block: seq<nat>, pad: nat, out: seq<byte>)
    requires Decoding(src, i, block, pad, out) && i < |src| && Value(src[i]) != NO_VALUE && |block| == 3
    ensures var b, p := block + [Value(src[i])], pad + if src[i] == PAD then 1 else 0;
            && (p > 2 ==> DecodeChars(src, [], 0) == None)
            && (0 < p <= 2 ==> DecodeChars(src, [], 0) == Some(out + Triple(b)[..3 - p]))
            && (p == 0 ==> Decoding(src, i + 1, [], 0, out + Triple(b)))
  {
    hide Value, DecodeChars, Triple;
    DecodeStep(src, i, block, pad);
    var rest := DecodeChars(src[i + 1..], [], 0);
    var b := block + [Value(src[i])];
    if rest.Some? {
      assert out + (Triple(b) + rest.value) == (out + Triple(b)) + rest.value;
    }
  }

  /** Writes the bytes of four values, and takes back as many as there were pads. */
  method StoreTriple(out: array<byte>, pos: nat, block: seq<nat>, pad: nat) returns (next: nat)
    requires |block| == 4 && (forall i | 0 <= i < 4 :: block[i] < 64) && pad <= 2 && pos + 3 <= out.Length
    modifies out
    ensures next == pos + 3 - pad && out[..next] == old(out[..pos]) + Triple(block)[..3 - pad]
  {
    hide Triple;
    next := Emit(out, pos, Triple(block));
    next := next - pad;
  }

  /** The decoder's main loop. */
  method DecodeLoop(src: seq<byte>, table: array<nat>, out: array<byte>) returns (ok: bool, outLen: nat)
    requires table.Length == 0x100 && forall c: byte :: table[c] == Value(c)
    requires 4 * out.Length >= 3 * CountValues(src)
    modifies out
    ensures ok <==> DecodeChars(src, [], 0).Some?
    ensures ok ==> outLen <= out.Length && Some(out[..outLen]) == DecodeChars(src, [], 0)
  {
    hide Value, CountValues, DecodeChars, Triple, Prepend;
    var i, pad, block: seq<nat>, pos := 0, 0, [], 0;
    DecodingStarts(src);
    assert out[..0] == [] && src[0..] == src;
    while i < |src|
      invariant 0 <= i <= |src| && 0 <= pos <= out.Length && |block| < 4
      invariant 4 * pos + 3 * (|block| + CountValues(src[i..])) <= 4 * out.Length
      invariant Decoding(src, i, block, pad, out[..pos])
    {
      CountStep(src, i);
      DecodingMore(src, i, block, pad, out[..pos]);
      var tmp := table[src[i]];
      if tmp != NO_VALUE {
        if |block| == 3 {
          DecodingQuad(src, i, block, pad, out[..pos]);
        }
        if src[i] == PAD {
          pad := pad + 1;
        }
        block := block + [tmp];
        if |block| == 4 {
          if pad > 2 {
            return false, 0;
          }
          pos := StoreTriple(out, pos, block, pad);
          if pad > 0 {
            return true, pos;
          }
          assert Triple(block)[..3] == Triple(block);
          block := [];
        }
      }
      i := i + 1;
    }
    DecodingEnds(src, block, pad, out[..pos]);
    return true, pos;
  }

  lemma PrependNothing(s: seq<byte>)
    ensures Prepend([], DecodeChars(s, [], 0)) == DecodeChars(s, [], 0)
  {
    hide DecodeChars;
    var d := DecodeChars(s, [], 0);
    assert d.Some? ==> [] + d.value == d.value;
  }

  lemma LeftOver(s: seq<byte>, block: seq<nat>, pad: nat)
    requires s == [] && Values(block)
    ensures DecodeChars(s, block, pad) == Some([])
  {
  }

  method Base64Decode(src: seq<byte>) returns (out: Option<seq<byte>>)
    ensures out == Decode(src)
  {
    hide Value, CountValues, DecodeChars;
    var table := BuildTable();
    var count := CountCharacters(src, table);
    if count == 0 || count % 4 != 0 {
      return None;
    }
    var buffer := new byte[count / 4 * 3](_ => 0);
    var ok, outLen := DecodeLoop(src, table, buffer);
    out := if ok then Some(buffer[..outLen]) else None;
  }

  // ----- round trip -----

  /** The state of the decoder behind four characters of the alphabet. */
  lemma DecodeQuad(v: seq<nat>, rest: seq<byte>)
    requires |v| == 4 && forall i | 0 <= i < 4 :: v[i] < 64
    ensures var quad := [Char(v[0]), Char(v[1]), Char(v[2]), Char(v[3])];
            && CountValues(quad + rest) == 4 + CountValues(rest)
            && DecodeChars(quad + rest, [], 0)
               == var more := DecodeChars(rest, [], 0);
                  if more.None? then None else Some(Triple(v) + more.value)
  {
    hide Char, Value, Triple;
    ValueOfChar(v[0]);
    ValueOfChar(v[1]);
    ValueOfChar(v[2]);
    ValueOfChar(v[3]);
    var s3 := [Char(v[3])] + rest;
    var s2 := [Char(v[2])] + s3;
    var s1 := [Char(v[1])] + s2;
    var s0 := [Char(v[0])] + s1;
    assert [Char(v[0]), Char(v[1]), Char(v[2]), Char(v[3])] + rest == s0;
    assert s0[1..] == s1 && s1[1..] == s2 && s2[1..] == s3 && s3[1..] == rest;
    assert [] + [v[0]] + [v[1]] + [v[2]] + [v[3]] == v;
    DecodeOne(s0, [], 0, v[0]);
    DecodeOne(s1, [] + [v[0]], 0, v[1]);
    DecodeOne(s2, [] + [v[0]] + [v[1]], 0, v[2]);
  }

  lemma DecodeOne(s: seq<byte>, block: seq<nat>, pad: nat, v: nat)
    requires s != [] && Values(block) && |block| < 3 && Value(s[0]) == v < 64
    ensures DecodeChars(s, block, pad) == DecodeChars(s[1..], block + [v], pad + if s[0] == PAD then 1 else 0)
    ensures CountValues(s) == 1 + CountValues(s[1..])
  {
  }

  lemma SplitMiddle(h: nat, l: nat)
    requires l < 16
    ensures (h * 16 + l) / 16 == h && (h * 16 + l) * 16 % 0x100 == l * 16
  {
    assert (h * 16 + l) * 16 == h * 0x100 + l * 16;
  }

  lemma SplitLow(h: nat, l: nat)
    requires l < 4
    ensures (h * 4 + l) / 4 == h && (h * 4 + l) * 64 % 0x100 == l * 64
  {
    assert (h * 4 + l) * 64 == h * 0x100 + l * 64;
  }

  lemma TripleOfQuad(a: byte, b: byte, c: byte)
    ensures Triple([a / 4, a % 4 * 16 + b / 16, b % 16 * 4 + c / 64, c % 64]) == [a, b, c]
  {
    var v: seq<nat> := [a / 4, a % 4 * 16 + b / 16, b % 16 * 4 + c / 64, c % 64];
    SplitMiddle(a % 4, b / 16);
    SplitLow(b % 16, c / 64);
    TripleIs(v, a, b, c);
  }

  lemma TripleIs(v: seq<nat>, a: byte, b: byte, c: byte)
    requires |v| == 4 && v[0] == a / 4 && v[1] / 16 == a % 4 && v[1] * 16 % 0x100 == b / 16 * 16
    requires v[2] / 4 == b % 16 && v[2] * 64 % 0x100 == c / 64 * 64 && v[3] == c % 64
    requires forall i | 0 <= i < 4 :: v[i] < 64
    ensures Triple(v) == [a, b, c]
  {
  }

  lemma DecodeFeed(rest: seq<byte>)
    ensures CountValues([LINE_FEED] + rest) == CountValues(rest)
    ensures DecodeChars([LINE_FEED] + rest, [], 0) == DecodeChars(rest, [], 0)
  {
    PadValue();
    assert ([LINE_FEED] + rest)[1..] == rest;
  }

  /** The last characters, with their pads; what follows is not looked at, but counted. */
  lemma DecodeLast(x: seq<byte>)
    requires |x| == 1 || |x| == 2
    ensures CountValues(LastQuad(x) + [LINE_FEED]) == 4
    ensures DecodeChars(LastQuad(x) + [LINE_FEED], [], 0) == Some(x)
  {
    hide Char, Value, Triple, CountValues, DecodeChars;
    var b, c := if |x| == 2 then x[1] else 0, 0;
    var v: seq<nat> := [x[0] / 4, x[0] % 4 * 16 + b / 16, b % 16 * 4, 0];
    TripleOfQuad(x[0], b, 0);
    ValueOfChar(v[0]);
    ValueOfChar(v[1]);
    ValueOfChar(v[2]);
    PadValue();
    var s := LastQuad(x) + [LINE_FEED];
    assert s[1..][1..][1..] == [s[3], LINE_FEED] && s[1..][0] == s[1] && s[1..][1..][0] == s[2];
    assert [] + [v[0]] + [v[1]] + [v[2]] == [v[0], v[1], v[2]];
    DecodeOne(s, [], 0, v[0]);
    DecodeOne(s[1..], [] + [v[0]], 0, v[1]);
    DecodeOne(s[1..][1..], [] + [v[0]] + [v[1]], 0, v[2]);
    DecodePad(s[3], [v[0], v[1], v[2]], |x|);
    assert [v[0], v[1], v[2]] + [0] == v;
    assert Triple(v)[..|x|] == x;
  }

  lemma DecodePad(c: byte, block: seq<nat>, n: nat)
    requires Values(block) && |block| == 3 && c == PAD && (n == 1 || n == 2)
    ensures CountValues([c, LINE_FEED]) == 1
    ensures DecodeChars([c, LINE_FEED], block, 2 - n) == Some(Triple(block + [0])[..n])
  {
    PadValue();
    assert [c, LINE_FEED][1..] == [LINE_FEED];
    assert [LINE_FEED][1..] == [];
    assert CountValues([LINE_FEED]) == CountValues([]) == 0;
  }

  lemma {:induction false} Decoded(x: seq<byte>, line: nat)
    ensures CountValues(EncodeFrom(x, line)) == 4 * Quads(|x|)
    ensures DecodeChars(EncodeFrom(x, line), [], 0) == Some(x)
    decreases |x|
  {
    hide Char, Value, Triple, CountValues, DecodeChars, LastQuad;
    if |x| >= 3 {
      var next := if line + 4 >= LINE then 0 else line + 4;
      Decoded(x[3..], next);
      assert Quads(|x|) == 1 + Quads(|x| - 3);
      var v: seq<nat> := [x[0] / 4, x[0] % 4 * 16 + x[1] / 16, x[1] % 16 * 4 + x[2] / 64, x[2] % 64];
      DecodeQuad(v, if line + 4 >= LINE then [LINE_FEED] + EncodeFrom(x[3..], 0) else EncodeFrom(x[3..], next));
      DecodeFeed(EncodeFrom(x[3..], 0));
      TripleOfQuad(x[0], x[1], x[2]);
      assert [x[0], x[1], x[2]] + x[3..] == x;
    } else if x != [] {
      DecodeLast(x);
    } else {
      NothingDecoded();
      DecodeFeed([]);
      assert [LINE_FEED] + [] == [LINE_FEED];
    }
  }

  lemma NothingDecoded()
    ensures CountValues([]) == 0 && DecodeChars([], [], 0) == Some([])
  {
  }

  /** Decoding what was encoded gives it back, except that nothing cannot be decoded. */
  lemma RoundTrip(x: seq<byte>)
    ensures Decode(EncodeFrom(x, 0)) == Some(x) <==> x != []
  {
    hide CountValues, DecodeChars, EncodeFrom;
    Decoded(x, 0);
  }
}
