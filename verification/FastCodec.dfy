/** The table-driven encoders: one step per word instead of one per cell. */
module FastCodec {
  import opened Bytes
  import opened Bits
  import opened Flux
  import opened TrackCodec

  // ----- the table -----

  /** Table entry of x once the words with their pulse before cell b are entered. */
  function LutUpTo(x: Word, b: nat): uint16
    requires b <= 16
  {
    if b == 0 then 0
    else if x == Pow2(16 - b) then (b - 1) * 0x100 + (17 - b)
    else LutUpTo(x, b - 1)
  }

  /** For a word whose only pulse is in cell b: b cells before the pulse, 16 - b from it on; 0 for other words. */
  function LutEntry(x: Word): uint16
  {
    LutUpTo(x, 16)
  }

  ghost predicate LutReady(lut: array<uint16>)
    reads lut
  {
    lut.Length == 0x1_0000 && forall x: Word :: lut[x] == LutEntry(x)
  }

  method PrepareLut(lut: array<uint16>)
    requires lut.Length == 0x1_0000
    modifies lut
    ensures LutReady(lut)
  {
    forall x | 0 <= x < 0x1_0000 {
      lut[x] := 0;
    }
    var i: int, b, a := 0x8000, 0, 16;
    Pow2Values();
    while i != 0
      invariant 0 <= b <= 16 && a == 16 - b && i == (if b < 16 then Pow2(15 - b) else 0)
      invariant i < 0x1_0000
      invariant forall x: Word :: lut[x] == LutUpTo(x, b)
      decreases 16 - b
    {
      lut[i] := b * 0x100 + a;
      i := i / 2;
      b := b + 1;
      a := a - 1;
    }
  }

  lemma {:induction false} LutFound(x: Word, n: nat) returns (b: nat)
    requires n <= 16 && LutUpTo(x, n) != 0
    ensures b < n && x == Pow2(15 - b)
  {
    if x == Pow2(16 - n) {
      b := n - 1;
    } else {
      b := LutFound(x, n - 1);
    }
  }

  lemma {:induction false} LutSingle(x: Word, b: nat, n: nat)
    requires b < n <= 16 && x == Pow2(15 - b)
    ensures LutUpTo(x, n) == b * 0x100 + (16 - b)
  {
    if n - 1 > b {
      Pow2Monotone(16 - n, 15 - b);
      LutSingle(x, b, n - 1);
    }
  }

  predicate BothCells(w: Word, b: nat, c: nat)
    requires b < 16 && c < 16
  {
    Cell(w, b) && Cell(w, c)
  }

  /** No two cells of the word hold a pulse. */
  predicate AtMostOnePulse(w: Word)
  {
    forall b: nat, c: nat | b < c < 16 :: !BothCells(w, b, c)
  }

  /** A word with one pulse is the power of two that stands for its cell. */
  lemma SingleWord(w: Word, b: nat)
    requires b < 16 && AtMostOnePulse(w) && Cell(w, b)
    ensures w == Pow2(15 - b)
    ensures forall c: nat | c < 16 :: Cell(w, c) <==> c == b
  {
    hide BitAt, Pow2;
    forall c: nat | c < 16
      ensures Cell(w, c) <==> c == b
    {
      assert c < b ==> !BothCells(w, c, b);
      assert b < c ==> !BothCells(w, b, c);
    }
    forall j: nat | j < 16
      ensures BitAt(w, j) <==> BitAt(Pow2(15 - b), j)
    {
      Pow2Bits(15 - b, j);
      assert Cell(w, 15 - j) <==> 15 - j == b;
    }
    Pow2Values();
    Pow2Monotone(15 - b, 16);
    SameBits(w, Pow2(15 - b), 16);
  }

  /** What the table tells about a word: the cell of its only pulse, or that it has several pulses. */
  lemma LutMeaning(w: Word) returns (b: nat)
    requires w != 0
    ensures b < 16 && Cell(w, b)
    ensures AtMostOnePulse(w) ==>
              LutEntry(w) == b * 0x100 + (16 - b) && forall c: nat | c < 16 :: Cell(w, c) <==> c == b
    ensures AtMostOnePulse(w) <==> LutEntry(w) != 0
  {
    hide BitAt, Pow2, AtMostOnePulse;
    Pow2Values();
    var k := SomeBit(w, 16);
    b := 15 - k;
    if AtMostOnePulse(w) {
      SingleWord(w, b);
      LutSingle(w, b, 16);
    }
    if LutEntry(w) != 0 {
      var c := LutFound(w, 16);
      OnlyPulse(w, c);
    }
  }

  lemma OnlyPulse(w: Word, c: nat)
    requires c < 16 && w == Pow2(15 - c)
    ensures AtMostOnePulse(w)
  {
    forall b: nat, d: nat | b < d < 16
      ensures !BothCells(w, b, d)
    {
      Pow2Bits(15 - c, 15 - b);
      Pow2Bits(15 - c, 15 - d);
    }
  }

  // ----- gaps, a word at a time -----

  /** The gaps the fast encoders write from word i on, when delta cells have passed since the last pulse. */
  function FastGaps(words: seq<Word>, i: nat, delta: uint32): (g: seq<nat>)
    decreases |words| - i
  {
    if i >= |words| then []
    else if words[i] == 0 then FastGaps(words, i + 1, (delta + 16) % U32)
    else
      var entry: nat := LutEntry(words[i]);
      if entry != 0 then [(delta + entry / 0x100) % U32] + FastGaps(words, i + 1, entry % 0x100)
      else [delta] + FastGaps(words, i + 1, 0)
  }

  /** The cells since the last pulse at the end of the words. */
  function FastCarry(words: seq<Word>, i: nat, delta: uint32): uint32
    decreases |words| - i
  {
    if i >= |words| then delta
    else if words[i] == 0 then FastCarry(words, i + 1, (delta + 16) % U32)
    else
      var entry: nat := LutEntry(words[i]);
      if entry != 0 then FastCarry(words, i + 1, entry % 0x100) else FastCarry(words, i + 1, 0)
  }

  predicate SinglePulses(words: seq<Word>)
  {
    forall i | 0 <= i < |words| :: AtMostOnePulse(words[i])
  }

  lemma CellOfWord(words: seq<Word>, i: nat, b: nat)
    requires i < |words| && b < 16
    ensures Pulse(words, 16 * i + b) <==> Cell(words[i], b)
  {
    var q := 16 * i + b;
    assert q / 16 == i && q % 16 == b;
  }

  /** The pulses of a word that has one. */
  lemma SinglePulseWord(words: seq<Word>, i: nat, b: nat)
    requires i < |words| && b < 16 && forall c: nat | c < 16 :: Cell(words[i], c) <==> c == b
    ensures Pulses(words, 16 * i) == [16 * i + b] + Pulses(words, 16 * i + 16)
  {
    hide Pulse, Cell, Pulses;
    forall q | 16 * i <= q < 16 * i + 16
      ensures Pulse(words, q) <==> q == 16 * i + b
    {
      CellOfWord(words, i, q - 16 * i);
    }
    NoPulses(words, 16 * i, b);
    NoPulses(words, 16 * i + b + 1, 15 - b);
    PulseHere(words, 16 * i + b);
  }

  lemma PulseHere(words: seq<Word>, j: nat)
    requires j < 16 * |words| && Pulse(words, j)
    ensures Pulses(words, j) == [j] + Pulses(words, j + 1)
  {
    hide Pulse;
  }

  lemma FastZero(words: seq<Word>, i: nat, delta: nat)
    requires i < |words| && words[i] == 0 && delta + 16 < U32
    ensures FastGaps(words, i, delta) == FastGaps(words, i + 1, delta + 16)
    ensures FastCarry(words, i, delta) == FastCarry(words, i + 1, delta + 16)
  {
  }

  lemma FastSingle(words: seq<Word>, i: nat, delta: nat, b: nat)
    requires i < |words| && words[i] != 0 && delta + 16 < U32
    requires b < 16 && LutEntry(words[i]) == b * 0x100 + (16 - b)
    ensures FastGaps(words, i, delta) == [delta + b] + FastGaps(words, i + 1, 16 - b)
    ensures FastCarry(words, i, delta) == FastCarry(words, i + 1, 16 - b)
  {
    hide LutEntry, FastGaps, FastCarry;
    EntryParts(b);
    FastWord(words, i, delta);
  }

  lemma EntryParts(b: nat)
    requires b < 16
    ensures (b * 0x100 + (16 - b)) / 0x100 == b && (b * 0x100 + (16 - b)) % 0x100 == 16 - b
  {
  }

  /**
   When no word has two pulses, the fast encoders write the gaps of the capture, and carry what lies behind its
   last pulse.
   */
  lemma {:induction false} FastGapsExact(words: seq<Word>, i: nat, last: nat)
    requires SinglePulses(words) && i <= |words| && last <= 16 * i && 16 * |words| - last < U32
    ensures Increasing(Pulses(words, 16 * i))
    ensures FastGaps(words, i, 16 * i - last) == Gaps(Pulses(words, 16 * i), last)
    decreases |words| - i
  {
    hide Cell, LutEntry, AtMostOnePulse, Pulses, Increasing, Pulse, Gaps, FastGaps;
    PulsesExact(words, 16 * i);
    if i == |words| {
      FastEnds(words, i, 16 * i - last, last);
    } else if words[i] == 0 {
      ZeroWord(words, i);
      FastZero(words, i, 16 * i - last);
      FastGapsExact(words, i + 1, last);
    } else {
      var b := LutMeaning(words[i]);
      SinglePulseWord(words, i, b);
      FastSingle(words, i, 16 * i - last, b);
      FastGapsExact(words, i + 1, 16 * i + b);
      FirstGap(16 * i + b, Pulses(words, 16 * i + 16), last);
    }
  }

  lemma FastEnds(words: seq<Word>, i: nat, delta: uint32, last: nat)
    requires i >= |words|
    ensures FastGaps(words, i, delta) == Gaps(Pulses(words, 16 * i), last) == []
  {
  }

  lemma FirstGap(first: nat, rest: seq<nat>, last: nat)
    requires Increasing([first] + rest) && last <= first
    ensures Increasing(rest) && (rest != [] ==> first <= rest[0])
    ensures Gaps([first] + rest, last) == [first - last] + Gaps(rest, first)
  {
    var p := [first] + rest;
    assert p[1..] == rest;
    assert forall i | 0 <= i < |rest| :: rest[i] == p[i + 1];
    assert rest != [] ==> p[0] < p[1];
  }

  // ----- exactly when the encoders agree -----

  function NonZeroWords(words: seq<Word>, i: nat): nat
    decreases |words| - i
  {
    if i >= |words| then 0 else (if words[i] == 0 then 0 else 1) + NonZeroWords(words, i + 1)
  }

  /** The fast encoders count one pulse for each word that is not zero. */
  lemma {:induction false} FastCount(words: seq<Word>, i: nat, delta: uint32)
    ensures |FastGaps(words, i, delta)| == NonZeroWords(words, i)
    decreases |words| - i
  {
    hide LutEntry;
    if i < |words| {
      if words[i] == 0 {
        FastCount(words, i + 1, (delta + 16) % U32);
      } else {
        var entry: nat := LutEntry(words[i]);
        FastCount(words, i + 1, if entry != 0 then entry % 0x100 else 0);
      }
    }
  }

  lemma {:induction false} PulsesAhead(words: seq<Word>, j: nat, q: nat)
    requires j <= q
    ensures |Pulses(words, j)| >= |Pulses(words, q)|
    ensures q < 16 * |words| && Pulse(words, q) ==> |Pulses(words, j)| >= 1 + |Pulses(words, q + 1)|
    decreases q - j
  {
    hide Pulse;
    if j < q {
      PulsesAhead(words, j + 1, q);
    }
  }

  lemma PulsesOfWord(words: seq<Word>, i: nat)
    requires i < |words|
    ensures |Pulses(words, 16 * i)| >= |Pulses(words, 16 * i + 16)| + if words[i] == 0 then 0 else 1
    ensures |Pulses(words, 16 * i)| > |Pulses(words, 16 * i + 16)| + 1 <==> !AtMostOnePulse(words[i])
  {
    hide Pulse, Pulses, LutEntry, Cell;
    if words[i] == 0 {
      ZeroWord(words, i);
      EmptyWord();
    } else {
      var only := LutMeaning(words[i]);
      if AtMostOnePulse(words[i]) {
        SinglePulseWord(words, i, only);
      } else {
        var b: nat, c: nat :| b < c < 16 && BothCells(words[i], b, c);
        CellOfWord(words, i, b);
        CellOfWord(words, i, c);
        PulsesAhead(words, 16 * i, 16 * i + b);
        PulsesAhead(words, 16 * i + b + 1, 16 * i + c);
        PulsesAhead(words, 16 * i + c + 1, 16 * i + 16);
      }
    }
  }

  lemma EmptyWord()
    ensures AtMostOnePulse(0)
  {
    forall b: nat, c: nat | b < c < 16
      ensures !BothCells(0, b, c)
    {
      ClearWord(b);
    }
  }

  lemma {:induction false} CountsAgree(words: seq<Word>, i: nat)
    requires i <= |words|
    ensures |Pulses(words, 16 * i)| >= NonZeroWords(words, i)
    ensures |Pulses(words, 16 * i)| == NonZeroWords(words, i) <==> SinglePulses(words[i..])
    decreases |words| - i
  {
    hide Pulse, AtMostOnePulse, Pulses;
    if i < |words| {
      PulsesOfWord(words, i);
      CountsAgree(words, i + 1);
      assert words[i..] == [words[i]] + words[i + 1..];
      assert SinglePulses(words[i..]) <==> AtMostOnePulse(words[i]) && SinglePulses(words[i + 1..]) by {
        SingleCons(words[i], words[i + 1..]);
      }
      if words[i] == 0 {
        EmptyWord();
        ZeroWord(words, i);
      }
    } else {
      assert 16 * i >= 16 * |words|;
      NothingLeft(words, 16 * i);
    }
  }

  lemma SingleCons(w: Word, rest: seq<Word>)
    ensures SinglePulses([w] + rest) <==> AtMostOnePulse(w) && SinglePulses(rest)
  {
    hide AtMostOnePulse;
    var all := [w] + rest;
    assert all[0] == w && forall i | 0 <= i < |rest| :: rest[i] == all[i + 1];
  }

  lemma NothingLeft(words: seq<Word>, j: nat)
    requires j >= 16 * |words|
    ensures Pulses(words, j) == []
  {
  }

  /** The fast encoders and the reference encoder agree, bytes and count, exactly on captures without double pulses. */
  lemma EncodersAgree(words: seq<Word>)
    requires 16 * |words| < U32
    ensures Increasing(Pulses(words, 0))
    ensures var fast, slow := FastGaps(words, 0, 0), Gaps(Pulses(words, 0), 0);
            EncodeGaps(fast) == EncodeGaps(slow) && |fast| == |slow| <==> SinglePulses(words)
  {
    hide Pulses, FastGaps, Gaps, Increasing;
    PulsesExact(words, 0);
    assert words[0..] == words;
    FastCount(words, 0, 0);
    CountsAgree(words, 0);
    if SinglePulses(words) {
      FastGapsExact(words, 0, 0);
    }
  }

  lemma {:induction false} SetBelow(k: nat)
    ensures SetAt(0, k) == Pow2(k) && SetAt(Pow2(k + 1), k) == 3 * Pow2(k)
  {
    if k > 0 {
      SetBelow(k - 1);
    }
  }

  lemma FirstTwoCells()
    ensures WithCell(0, 0) == 0x8000 && WithCell(0x8000, 1) == 0xC000
  {
    hide SetAt;
    Pow2Values();
    assert Pow2(15) == 0x8000 && Pow2(14) == 0x4000;
    SetBelow(15);
    SetBelow(14);
  }

  /** Two pulses in the first two cells of a capture, of which the fast encoders write one. */
  lemma DoublePulseIsLost()
    ensures Pulses([0xC000], 0) == [0, 1] && !SinglePulses([0xC000])
    ensures FastGaps([0xC000], 0, 0) == [0]
  {
    hide WithCell, Cell, LutEntry, Pulses, BitAt, AtMostOnePulse;
    var words: seq<Word> := [0xC000];
    FirstTwoCells();
    assert SetPulses(Blank(1), [0, 1]) == words by {
      assert [0, 1][1..] == [1] && [1][1..] == [];
      assert SetPulses(words, []) == words;
      assert SetPulses([0x8000], [1]) == words;
    }
    FindsPulses(1, [0, 1]);
    PulsesExact(words, 0);
    CellOfWord(words, 0, 0);
    CellOfWord(words, 0, 1);
    TwoPulses(words[0], 0, 1);
    assert !AtMostOnePulse(words[0]);
    var b := LutMeaning(words[0]);
    assert FastGaps(words, 1, 0) == [];
  }

  lemma TwoPulses(w: Word, b: nat, c: nat)
    requires b < c < 16 && Cell(w, b) && Cell(w, c)
    ensures !AtMostOnePulse(w)
  {
    hide Cell;
    assert BothCells(w, b, c);
  }

  // ----- conservation -----

  function Sum(s: seq<nat>): nat
  {
    if s == [] then 0 else s[0] + Sum(s[1..])
  }

  function DoubleWords(words: seq<Word>, i: nat): nat
    decreases |words| - i
  {
    if i >= |words| then 0 else (if AtMostOnePulse(words[i]) then 0 else 1) + DoubleWords(words, i + 1)
  }

  /** Every cell is in a gap or in the carry, except the sixteen of each word with several pulses. */
  lemma {:induction false} CellsConserved(words: seq<Word>, i: nat, delta: nat)
    requires i <= |words| && delta + 16 * (|words| - i) < U32 - 16
    ensures Sum(FastGaps(words, i, delta)) + FastCarry(words, i, delta) + 16 * DoubleWords(words, i)
            == delta + 16 * (|words| - i)
    decreases |words| - i
  {
    hide LutEntry, AtMostOnePulse, FastGaps, FastCarry, Sum;
    if i == |words| {
      FastAtEnd(words, delta);
    } else if words[i] == 0 {
      EmptyWord();
      FastZero(words, i, delta);
      CellsConserved(words, i + 1, delta + 16);
    } else {
      var b := LutMeaning(words[i]);
      if AtMostOnePulse(words[i]) {
        FastSingle(words, i, delta, b);
        SumCons(delta + b, FastGaps(words, i + 1, 16 - b));
        CellsConserved(words, i + 1, 16 - b);
      } else {
        FastDouble(words, i, delta);
        SumCons(delta, FastGaps(words, i + 1, 0));
        CellsConserved(words, i + 1, 0);
      }
    }
  }

  lemma FastAtEnd(words: seq<Word>, delta: uint32)
    ensures FastGaps(words, |words|, delta) == [] && Sum(FastGaps(words, |words|, delta)) == 0
    ensures FastCarry(words, |words|, delta) == delta
  {
  }

  lemma FastDouble(words: seq<Word>, i: nat, delta: uint32)
    requires i < |words| && words[i] != 0 && LutEntry(words[i]) == 0
    ensures FastGaps(words, i, delta) == [delta] + FastGaps(words, i + 1, 0)
    ensures FastCarry(words, i, delta) == FastCarry(words, i + 1, 0)
  {
  }

  lemma SumCons(d: nat, s: seq<nat>)
    ensures Sum([d] + s) == d + Sum(s)
  {
    assert ([d] + s)[1..] == s;
  }

  // ----- sizes -----

  /** The bytes by which the next code may exceed one, earned by the empty words behind the last pulse. */
  function Credit(delta: nat): nat
  {
    if delta < 0x80 - 15 then 0 else if delta < 0x4000 - 15 then 1 else if delta < 0x20_0000 - 15 then 2 else 3
  }

  /** On average the fast encoders write at most one byte per word. */
  lemma {:induction false} FastSize(words: seq<Word>, i: nat, delta: uint32)
    requires i <= |words|
    ensures |EncodeGaps(FastGaps(words, i, delta))| <= |words| - i + Credit(delta)
    decreases |words| - i
  {
    hide LutEntry, EncodeGap, EncodeGaps, FastGaps, FastCarry, Credit;
    if i == |words| {
      FastAtEnd(words, delta);
    } else if words[i] == 0 {
      FastSkip(words, i, delta);
      EarnedByWord(delta);
      FastSize(words, i + 1, (delta + 16) % U32);
    } else {
      FastWord(words, i, delta);
      EntryRange(words[i]);
      var entry: nat := LutEntry(words[i]);
      var d, delta1 := if entry != 0 then (delta + entry / 0x100) % U32 else delta, entry % 0x100;
      FastSize(words, i + 1, delta1);
      NothingEarned(delta1);
      CodeSize(d, delta);
      EncodeCons(d, FastGaps(words, i + 1, delta1));
    }
  }

  lemma EarnedByWord(delta: uint32)
    ensures Credit((delta + 16) % U32) <= Credit(delta) + 1
  {
  }

  lemma NothingEarned(delta: nat)
    requires delta <= 16
    ensures Credit(delta) == 0
  {
  }

  lemma EncodeCons(d: nat, gaps: seq<nat>)
    ensures EncodeGaps([d] + gaps) == EncodeGap(d) + EncodeGaps(gaps)
  {
    hide EncodeGap;
    assert ([d] + gaps)[1..] == gaps;
  }

  lemma CodeSize(d: nat, delta: nat)
    requires d <= delta + 15
    ensures |EncodeGap(d)| <= 1 + Credit(delta)
  {
  }

  lemma EntryRange(x: Word)
    ensures LutEntry(x) / 0x100 < 16 && LutEntry(x) % 0x100 <= 16
  {
    LutRange(x, 16);
  }

  lemma {:induction false} LutRange(x: Word, n: nat)
    requires n <= 16
    ensures LutUpTo(x, n) / 0x100 < 16 && LutUpTo(x, n) % 0x100 <= 16
  {
    if n > 0 {
      LutRange(x, n - 1);
    }
  }

  // ----- the encoding loop -----

  /** At word i, with delta cells since the last pulse, out is what should have been written so far. */
  ghost predicate FastEncoded(words: seq<Word>, i: nat, delta0: uint32, delta: uint32, nbPulses: nat, out: seq<byte>)
  {
    && out + EncodeGaps(FastGaps(words, i, delta)) == EncodeGaps(FastGaps(words, 0, delta0))
    && nbPulses + |FastGaps(words, i, delta)| == |FastGaps(words, 0, delta0)|
    && FastCarry(words, i, delta) == FastCarry(words, 0, delta0)
  }

  /** One word further, having written the gap d. */
  lemma FastEncodedGap(words: seq<Word>, i: nat, delta0: uint32, delta: uint32, nbPulses: nat, out: seq<byte>,
                       d: uint32, delta1: uint32)
    requires FastEncoded(words, i, delta0, delta, nbPulses, out)
    requires FastGaps(words, i, delta) == [d] + FastGaps(words, i + 1, delta1)
    requires FastCarry(words, i, delta) == FastCarry(words, i + 1, delta1)
    ensures FastEncoded(words, i + 1, delta0, delta1, nbPulses + 1, out + EncodeGap(d))
    ensures |out + EncodeGap(d)| <= |EncodeGaps(FastGaps(words, 0, delta0))|
  {
    hide FastGaps, FastCarry, EncodeGap;
    var rest := FastGaps(words, i + 1, delta1);
    assert ([d] + rest)[1..] == rest;
    assert (out + EncodeGap(d)) + EncodeGaps(rest) == out + (EncodeGap(d) + EncodeGaps(rest));
  }

  lemma FastSkip(words: seq<Word>, i: nat, delta: uint32)
    requires i < |words| && words[i] == 0
    ensures FastGaps(words, i, delta) == FastGaps(words, i + 1, (delta + 16) % U32)
    ensures FastCarry(words, i, delta) == FastCarry(words, i + 1, (delta + 16) % U32)
  {
  }

  lemma FastWord(words: seq<Word>, i: nat, delta: uint32)
    requires i < |words| && words[i] != 0
    ensures var entry: nat := LutEntry(words[i]);
            var d, delta1 := if entry != 0 then (delta + entry / 0x100) % U32 else delta, entry % 0x100;
            && FastGaps(words, i, delta) == [d] + FastGaps(words, i + 1, delta1)
            && FastCarry(words, i, delta) == FastCarry(words, i + 1, delta1)
  {
  }

  /**
   The loop of both fast encoders: n words from base on, every second word of the buffer, starting with delta0 cells
   behind the last pulse.
   */
  method ConvertWords(buffer: array<Word>, base: nat, n: nat, lut: array<uint16>, delta0: uint32, data: array<byte>)
    returns (outSize: nat, nbPulses: nat, delta: uint32)
    requires LutReady(lut) && data as object != buffer && data as object != lut
    requires n == 0 || base + 2 * (n - 1) < buffer.Length
    requires |EncodeGaps(FastGaps(Side(buffer[..], base, n), 0, delta0))| <= data.Length
    modifies data
    ensures var words := Side(buffer[..], base, n);
            && outSize <= data.Length
            && data[..outSize] == EncodeGaps(FastGaps(words, 0, delta0))
            && nbPulses == |FastGaps(words, 0, delta0)|
            && delta == FastCarry(words, 0, delta0)
  {
    hide FastGaps, FastCarry, EncodeGap, LutEntry;
    ghost var words := Side(buffer[..], base, n);
    var i := 0;
    outSize, nbPulses, delta := 0, 0, delta0;
    assert data[..0] == [];
    while i < n
      invariant 0 <= i <= n && outSize <= data.Length
      invariant FastEncoded(words, i, delta0, delta, nbPulses, data[..outSize])
    {
      var word := buffer[base + 2 * i];
      assert word == words[i];
      if word == 0 {
        FastSkip(words, i, delta);
        delta := (delta + 16) % U32;
      } else {
        FastWord(words, i, delta);
        var entry: nat := lut[word];
        ghost var before := delta;
        if entry != 0 {
          delta := (delta + entry / 0x100) % U32;
        }
        FastEncodedGap(words, i, delta0, before, nbPulses, data[..outSize], delta, entry % 0x100);
        outSize := EmitGap(data, outSize, delta);
        delta := entry % 0x100;
        nbPulses := nbPulses + 1;
      }
      i := i + 1;
    }
    FastAtEnd(words, delta);
  }

  /** The fast encoder of a track; an odd half of a track size stays odd, and its last word counts. */
  method FastConvertTrack(image: array<Word>, base: nat, trackSize: nat, lut: array<uint16>)
    returns (data: array<byte>, trackLength: nat, outSize: nat, nbPulses: nat)
    requires LutReady(lut) && trackSize > 1 && trackSize * 8 < U32
    requires base + 2 * (WordsOfHalf(trackSize) - 1) < image.Length
    ensures trackLength == 8 * data.Length && outSize <= data.Length == trackSize / 2
    ensures var words := Side(image[..], base, WordsOfHalf(trackSize));
            && data[..outSize] == EncodeGaps(FastGaps(words, 0, 0))
            && nbPulses == |FastGaps(words, 0, 0)|
  {
    hide FastGaps, FastCarry, EncodeGaps;
    var finalTrackLen := trackSize / 2;
    if finalTrackLen % 2 == 1 {
      finalTrackLen := finalTrackLen / 2 * 2 + 1;
    }
    data := new byte[finalTrackLen](_ => 0);
    ghost var words := Side(image[..], base, WordsOfHalf(trackSize));
    FastSize(words, 0, 0);
    var delta;
    outSize, nbPulses, delta := ConvertWords(image, base, (finalTrackLen + 1) / 2, lut, 0, data);
    trackLength := finalTrackLen * 8;
  }

  /** Words of one side, from half the size of the track. */
  function WordsOfHalf(trackSize: nat): nat
  {
    (trackSize / 2 + 1) / 2
  }
}
