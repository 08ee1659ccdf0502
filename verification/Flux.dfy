/**
 Flux captures: one bit per sample cell, sixteen cells to a word, most significant bit first; and the stream of
 variable-length gaps between pulses that stands for them.
 */
module Flux {
  import opened Bytes
  import opened Bits

  type Word = uint16

  // ----- cells and pulses -----

  /** Cell b of a word, counted from the most significant bit. */
  predicate Cell(w: Word, b: nat)
    requires b < 16
  {
    BitAt(w, 15 - b)
  }

  /** w | (0x8000 >> b). */
  function WithCell(w: Word, b: nat): (r: Word)
    requires b < 16
  {
    Pow2Values();
    SetAtRange(w, 15 - b, 16);
    SetAt(w, 15 - b)
  }

  lemma SetCell(w: Word, b: nat, c: nat)
    requires b < 16 && c < 16
    ensures Cell(WithCell(w, b), c) <==> Cell(w, c) || b == c
  {
    SetAtBits(w, 15 - b, 15 - c);
  }

  lemma ClearWord(b: nat)
    requires b < 16
    ensures !Cell(0, b)
  {
    NoBitsOfZero(15 - b);
  }

  lemma SameCells(v: Word, w: Word)
    requires forall b: nat | b < 16 :: Cell(v, b) <==> Cell(w, b)
    ensures v == w
  {
    forall k: nat | k < 16
      ensures BitAt(v, k) <==> BitAt(w, k)
    {
      assert Cell(v, 15 - k) <==> Cell(w, 15 - k);
    }
    Pow2Values();
    SameBits(v, w, 16);
  }

  /** Whether there is a pulse at position j. */
  predicate Pulse(words: seq<Word>, j: nat)
    requires j < 16 * |words|
  {
    Cell(words[j / 16], j % 16)
  }

  /** The positions of the pulses from j on, in order. */
  function Pulses(words: seq<Word>, j: nat): (p: seq<nat>)
    ensures |p| <= if j < 16 * |words| then 16 * |words| - j else 0
    ensures forall i | 0 <= i < |p| :: j <= p[i] < 16 * |words|
    decreases 16 * |words| - j
  {
    if j >= 16 * |words| then []
    else if Pulse(words, j) then [j] + Pulses(words, j + 1)
    else Pulses(words, j + 1)
  }

  predicate Increasing(p: seq<nat>)
  {
    forall i, k | 0 <= i < k < |p| :: p[i] < p[k]
  }

  lemma {:induction false} PulsesExact(words: seq<Word>, j: nat)
    ensures Increasing(Pulses(words, j))
    ensures forall q: nat | j <= q < 16 * |words| :: q in Pulses(words, j) <==> Pulse(words, q)
    decreases 16 * |words| - j
  {
    hide Pulse;
    if j < 16 * |words| {
      PulsesExact(words, j + 1);
      var rest := Pulses(words, j + 1);
      if Pulse(words, j) {
        assert Pulses(words, j) == [j] + rest;
      } else {
        assert Pulses(words, j) == rest;
      }
    }
  }

  lemma {:induction false} NoPulses(words: seq<Word>, j: nat, n: nat)
    requires j + n <= 16 * |words| && forall q | j <= q < j + n :: !Pulse(words, q)
    ensures Pulses(words, j) == Pulses(words, j + n)
    decreases n
  {
    hide Cell;
    if n > 0 {
      NoPulses(words, j + 1, n - 1);
    }
  }

  lemma ZeroWord(words: seq<Word>, i: nat)
    requires i < |words| && words[i] == 0
    ensures Pulses(words, 16 * i) == Pulses(words, 16 * i + 16)
  {
    hide Cell;
    forall q | 16 * i <= q < 16 * i + 16
      ensures !Pulse(words, q)
    {
      assert q / 16 == i;
      ClearWord(q % 16);
    }
    NoPulses(words, 16 * i, 16);
  }

  /** Words are determined by where their pulses are. */
  lemma SamePulses(v: seq<Word>, w: seq<Word>)
    requires |v| == |w| && forall q: nat | q < 16 * |v| :: Pulse(v, q) <==> Pulse(w, q)
    ensures v == w
  {
    hide Cell;
    forall i | 0 <= i < |v|
      ensures v[i] == w[i]
    {
      forall b: nat | b < 16
        ensures Cell(v[i], b) <==> Cell(w[i], b)
      {
        var q := 16 * i + b;
        assert q / 16 == i && q % 16 == b;
        assert Pulse(v, q) <==> Pulse(w, q);
      }
      SameCells(v[i], w[i]);
    }
  }

  /** Sets the pulses at the given positions. */
  function SetPulses(words: seq<Word>, p: seq<nat>): (r: seq<Word>)
    requires forall i | 0 <= i < |p| :: p[i] < 16 * |words|
    ensures |r| == |words|
    decreases |p|
  {
    if p == [] then words
    else SetPulses(words[p[0] / 16 := WithCell(words[p[0] / 16], p[0] % 16)], p[1..])
  }

  lemma {:induction false} SetPulsesExact(words: seq<Word>, p: seq<nat>)
    requires forall i | 0 <= i < |p| :: p[i] < 16 * |words|
    ensures forall q: nat | q < 16 * |words| :: Pulse(SetPulses(words, p), q) <==> Pulse(words, q) || q in p
    decreases |p|
  {
    hide Cell, WithCell;
    if p != [] {
      var w1 := words[p[0] / 16 := WithCell(words[p[0] / 16], p[0] % 16)];
      SetPulsesExact(w1, p[1..]);
      forall q: nat | q < 16 * |words|
        ensures Pulse(w1, q) <==> Pulse(words, q) || q == p[0]
      {
        SetCell(words[p[0] / 16], p[0] % 16, q % 16);
      }
    }
  }

  function Blank(n: nat): (w: seq<Word>)
    ensures |w| == n
  {
    Repeat(0, n)
  }

  lemma NoPulsesInBlank(n: nat)
    ensures forall q: nat | q < 16 * n :: !Pulse(Blank(n), q)
  {
    hide Cell;
    forall q: nat | q < 16 * n
      ensures !Pulse(Blank(n), q)
    {
      ClearWord(q % 16);
    }
  }

  /** Setting the pulses of a capture in a blank one rebuilds it. */
  lemma RebuildsWords(words: seq<Word>)
    ensures SetPulses(Blank(|words|), Pulses(words, 0)) == words
  {
    hide Cell, WithCell;
    var p := Pulses(words, 0);
    PulsesExact(words, 0);
    SetPulsesExact(Blank(|words|), p);
    NoPulsesInBlank(|words|);
    SamePulses(SetPulses(Blank(|words|), p), words);
  }

  lemma {:induction false} IncreasingUnique(p: seq<nat>, q: seq<nat>)
    requires Increasing(p) && Increasing(q) && forall x: nat :: x in p <==> x in q
    ensures p == q
    decreases |p|
  {
    assert q != [] ==> q[0] in p;
    if p != [] {
      assert p[0] in q;
      assert p[0] == q[0];
      forall x: nat
        ensures x in p[1..] <==> x in q[1..]
      {
        assert x in p <==> x == p[0] || x in p[1..];
        assert x in q <==> x == q[0] || x in q[1..];
      }
      IncreasingUnique(p[1..], q[1..]);
    }
  }

  /** And the pulses found in it are the ones that were set. */
  lemma FindsPulses(n: nat, p: seq<nat>)
    requires Increasing(p) && forall i | 0 <= i < |p| :: p[i] < 16 * n
    ensures Pulses(SetPulses(Blank(n), p), 0) == p
  {
    hide Cell, WithCell;
    var w := SetPulses(Blank(n), p);
    SetPulsesExact(Blank(n), p);
    PulsesExact(w, 0);
    NoPulsesInBlank(n);
    IncreasingUnique(Pulses(w, 0), p);
  }

  // ----- gaps -----

  /** Distances from one pulse to the next; the first is measured from last. */
  function Gaps(p: seq<nat>, last: nat): (g: seq<nat>)
    requires Increasing(p) && (p != [] ==> last <= p[0])
    ensures |g| == |p|
    decreases |p|
  {
    if p == [] then [] else [p[0] - last] + Gaps(p[1..], p[0])
  }

  /** Running sums, in the 32-bit counter of the decoder. */
  function Positions(gaps: seq<nat>, last: uint32): (p: seq<nat>)
    ensures |p| == |gaps|
    decreases |gaps|
  {
    if gaps == [] then []
    else
      var at := (last + gaps[0]) % U32;
      [at] + Positions(gaps[1..], at)
  }

  lemma {:induction false} PositionsOfGaps(p: seq<nat>, last: uint32)
    requires Increasing(p) && (p != [] ==> last <= p[0]) && forall i | 0 <= i < |p| :: p[i] < U32
    ensures Positions(Gaps(p, last), last) == p
    decreases |p|
  {
    if p != [] {
      PositionsOfGaps(p[1..], p[0]);
      assert Gaps(p, last)[1..] == Gaps(p[1..], p[0]);
    }
  }

  // ----- the variable-length code -----

  const SATURATED := 0x0FFF_FFFF

  /** One to four bytes; gaps that do not fit 28 bits are written as the largest one. */
  function EncodeGap(d: nat): (e: seq<byte>)
    ensures 1 <= |e| <= 4
  {
    if d < 0x80 then [d]
    else if d < 0x4000 then [0x80 + d / 0x100, d % 0x100]
    else if d < 0x20_0000 then [0xC0 + d / 0x1_0000, d / 0x100 % 0x100, d % 0x100]
    else if d < 0x1000_0000 then [0xE0 + d / 0x100_0000, d / 0x1_0000 % 0x100, d / 0x100 % 0x100, d % 0x100]
    else [0xEF, 0xFF, 0xFF, 0xFF]
  }

  /** The bytes of a code as a number, the first one most significant. */
  function CodeValue(e: seq<byte>): nat
  {
    if e == [] then 0 else Join(CodeValue(e[..|e| - 1]), e[|e| - 1])
  }

  lemma CodeOne(b0: byte)
    ensures CodeValue([b0]) == b0
  {
    assert [b0][..0] == [];
  }

  lemma CodeMore(e: seq<byte>, b: byte)
    ensures CodeValue(e + [b]) == Join(CodeValue(e), b)
  {
    assert (e + [b])[..|e|] == e;
  }

  /** The leading bits that tell the size of a code. */
  function Prefix(size: nat): nat
  {
    match size
    case 1 => 0
    case 2 => 0x8000
    case 3 => 0xC0_0000
    case _ => 0xE000_0000
  }

  /** A code is the gap behind the leading bits of its size, which leave 7, 14, 21 or 28 bits, in the fewest bytes. */
  lemma GapBits(d: nat)
    ensures |EncodeGap(d)| == if d < 0x80 then 1 else if d < 0x4000 then 2 else if d < 0x20_0000 then 3 else 4
    ensures CodeValue(EncodeGap(d)) == Prefix(|EncodeGap(d)|) + Saturate(d)
  {
    var e := EncodeGap(d);
    CodeOne(e[0]);
    if |e| > 1 {
      hide CodeValue;
      CodeMore([e[0]], e[1]);
      assert e[..2] == [e[0]] + [e[1]];
      if |e| > 2 {
        CodeMore(e[..2], e[2]);
        assert e[..3] == e[..2] + [e[2]];
        if |e| > 3 {
          CodeMore(e[..3], e[3]);
          assert e == e[..3] + [e[3]];
        }
      }
      JoinDigits(Saturate(d));
      assert e == e[..|e|];
    } else {
      assert e == [e[0]];
    }
  }

  function EncodeGaps(gaps: seq<nat>): (e: seq<byte>)
    ensures |gaps| <= |e| <= 4 * |gaps|
  {
    if gaps == [] then [] else EncodeGap(gaps[0]) + EncodeGaps(gaps[1..])
  }

  datatype Gap = Gap(length: nat, next: nat)

  function Join(high: nat, low: nat): nat { high * 0x100 + low }

  /** The gap at k and the position of the byte behind it; the first byte tells how many belong to it. */
  function DecodeGap(data: seq<byte>, k: nat): (r: Option<Gap>)
    ensures r.Some? ==> k < r.value.next <= |data|
  {
    if k >= |data| then None
    else
      var c: nat := data[k];
      if c < 0x80 then Some(Gap(c, k + 1))
      else if c < 0xC0 then
        if k + 2 > |data| then None else Some(Gap(Join(c - 0x80, data[k + 1]), k + 2))
      else if c < 0xE0 then
        if k + 3 > |data| then None else Some(Gap(Join(Join(c - 0xC0, data[k + 1]), data[k + 2]), k + 3))
      else if c < 0xF0 then
        if k + 4 > |data| then None
        else Some(Gap(Join(Join(Join(c - 0xE0, data[k + 1]), data[k + 2]), data[k + 3]), k + 4))
      else Some(Gap(0, k + 1))
  }

  /** The first count gaps of a stream. */
  function DecodeGaps(data: seq<byte>, k: nat, count: nat): (r: Option<seq<nat>>)
    ensures r.Some? ==> |r.value| == count
    decreases count
  {
    if count == 0 then Some([])
    else
      match DecodeGap(data, k)
      case None => None
      case Some(gap) =>
        match DecodeGaps(data, gap.next, count - 1)
        case None => None
        case Some(rest) => Some([gap.length] + rest)
  }

  function Saturate(d: nat): nat
  {
    if d < SATURATED then d else SATURATED
  }

  function SaturateAll(gaps: seq<nat>): (r: seq<nat>)
    ensures |r| == |gaps| && forall i | 0 <= i < |gaps| :: r[i] == Saturate(gaps[i])
  {
    seq(|gaps|, i requires 0 <= i < |gaps| => Saturate(gaps[i]))
  }

  lemma GapCode(data: seq<byte>, k: nat, d: nat)
    requires At(data, k, EncodeGap(d))
    ensures DecodeGap(data, k) == Some(Gap(Saturate(d), k + |EncodeGap(d)|))
  {
    hide Join;
    var e := EncodeGap(d);
    assert e[0] == data[k + 0];
    if |e| == 2 {
      assert e[1] == data[k + 1];
      JoinDigits(d);
    } else if |e| == 3 {
      assert e[1] == data[k + 1] && e[2] == data[k + 2];
      JoinDigits(d);
    } else if |e| == 4 {
      assert e[1] == data[k + 1] && e[2] == data[k + 2] && e[3] == data[k + 3];
      if d < SATURATED {
        JoinDigits(d);
      } else {
        JoinDigits(SATURATED);
      }
    }
  }

  lemma JoinDigits(d: nat)
    ensures Join(d / 0x100, d % 0x100) == d
    ensures Join(d / 0x1_0000, d / 0x100 % 0x100) == d / 0x100
    ensures Join(d / 0x100_0000, d / 0x1_0000 % 0x100) == d / 0x1_0000
  {
  }

  /** A stream decodes to the gaps it was made from, the ones that are too long cut down to the largest one. */
  lemma {:induction false} GapsCode(data: seq<byte>, k: nat, gaps: seq<nat>)
    requires At(data, k, EncodeGaps(gaps))
    ensures DecodeGaps(data, k, |gaps|) == Some(SaturateAll(gaps))
    decreases |gaps|
  {
    hide EncodeGap, DecodeGap, Saturate;
    if gaps == [] {
      assert SaturateAll(gaps) == [];
    } else {
      AtParts(data, k, EncodeGap(gaps[0]), EncodeGaps(gaps[1..]));
      GapCode(data, k, gaps[0]);
      GapsCode(data, k + |EncodeGap(gaps[0])|, gaps[1..]);
      assert SaturateAll(gaps) == [Saturate(gaps[0])] + SaturateAll(gaps[1..]);
    }
  }

  lemma {:induction false} EncodeGapsConcat(a: seq<nat>, b: seq<nat>)
    ensures EncodeGaps(a + b) == EncodeGaps(a) + EncodeGaps(b)
    decreases |a|
  {
    if a == [] {
      assert a + b == b;
    } else {
      assert (a + b)[1..] == a[1..] + b;
      EncodeGapsConcat(a[1..], b);
    }
  }
}
