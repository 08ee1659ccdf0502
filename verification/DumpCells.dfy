/** What a reader of a dump makes of its gaps: the cells that were captured, and exactly when. */
module DumpCells {
  import opened Bytes
  import opened Bits
  import opened Flux
  import opened TrackCodec
  import opened FastCodec
  import opened DumpChunk

  // ----- positions -----

  predicate Below(p: seq<nat>, bound: nat)
  {
    forall i | 0 <= i < |p| :: p[i] < bound
  }

  lemma BelowCons(x: nat, q: seq<nat>, bound: nat)
    requires x < bound && Below(q, bound)
    ensures Below([x] + q, bound)
  {
  }

  lemma FirstPosition(d: nat, gaps: seq<nat>, last: nat)
    requires last + Saturate(d) < U32
    ensures var at := last + Saturate(d);
            Positions(SaturateAll([d] + gaps), last) == [at] + Positions(SaturateAll(gaps), at)
  {
    SaturateCons(d, gaps);
    hide SaturateAll;
    assert ([Saturate(d)] + SaturateAll(gaps))[1..] == SaturateAll(gaps);
  }

  /** Positions do not exceed the sum of the gaps. */
  lemma {:induction false} PositionsBelow(gaps: seq<nat>, last: nat, bound: nat)
    requires last + Sum(gaps) < bound <= U32
    ensures Below(Positions(SaturateAll(gaps), last), bound)
    decreases |gaps|
  {
    if gaps != [] {
      hide Sum, SaturateAll, Positions, Below;
      SumCons(gaps[0], gaps[1..]);
      assert gaps == [gaps[0]] + gaps[1..];
      var at := last + Saturate(gaps[0]);
      PositionsBelow(gaps[1..], at, bound);
      FirstPosition(gaps[0], gaps[1..], last);
      BelowCons(at, Positions(SaturateAll(gaps[1..]), at), bound);
    }
  }

  /** When there is a gap, some cells lie behind the last pulse. */
  lemma {:induction false} CellsBehind(words: seq<Word>, i: nat, delta: nat)
    requires i <= |words| && delta + 16 * (|words| - i) < U32 - 16 && FastGaps(words, i, delta) != []
    ensures Sum(FastGaps(words, i, delta)) < delta + 16 * (|words| - i)
  {
    hide FastGaps, FastCarry, Sum, AtMostOnePulse;
    CellsConserved(words, i, delta);
    if DoubleWords(words, i) == 0 {
      CarryLeft(words, i, delta);
    }
  }

  lemma {:induction false} CarryLeft(words: seq<Word>, i: nat, delta: nat)
    requires i <= |words| && delta + 16 * (|words| - i) < U32 - 16 && DoubleWords(words, i) == 0
    requires delta > 0 || FastGaps(words, i, delta) != []
    ensures FastCarry(words, i, delta) > 0
    decreases |words| - i
  {
    hide LutEntry, AtMostOnePulse, FastGaps, FastCarry;
    if i == |words| {
      FastAtEnd(words, delta);
    } else if words[i] == 0 {
      FastZero(words, i, delta);
      CarryLeft(words, i + 1, delta + 16);
    } else {
      var b := LutMeaning(words[i]);
      FastSingle(words, i, delta, b);
      CarryLeft(words, i + 1, 16 - b);
    }
  }

  /** Distinct elements of p are no more than p has. */
  lemma {:induction false} NoMore(q: seq<nat>, p: seq<nat>)
    requires Increasing(q) && forall x | x in q :: x in p
    ensures |q| <= |p|
    decreases |q|
  {
    if q != [] {
      assert q[0] in p;
      var i :| 0 <= i < |p| && p[i] == q[0];
      var rest := p[..i] + p[i + 1..];
      forall x | x in q[1..]
        ensures x in rest
      {
        var k :| 0 <= k < |q[1..]| && q[1..][k] == x;
        assert q[0] < q[k + 1];
        assert x in p;
        var m :| 0 <= m < |p| && p[m] == x;
        assert if m < i then rest[m] == x else rest[m - 1] == x;
      }
      NoMore(q[1..], rest);
    }
  }

  /** The positions a reader of the whole dump computes. */
  function ReadPositions(cells: seq<Word>): seq<nat>
  {
    Positions(SaturateAll(FastGaps(cells, 0, 0)), 0)
  }

  lemma ReadersPositions(cells: seq<Word>)
    requires 16 * |cells| < U32 - 16
    ensures Below(ReadPositions(cells), 16 * |cells|)
  {
    hide FastGaps, Positions, SaturateAll, Sum;
    if FastGaps(cells, 0, 0) != [] {
      CellsBehind(cells, 0, 0);
      PositionsBelow(FastGaps(cells, 0, 0), 0, 16 * |cells|);
    }
  }

  // ----- the whole dump -----

  /** A dump rebuilds the capture exactly when no word holds two pulses and no gap is cut down. */
  lemma DumpIsLossless(cells: seq<Word>)
    requires 16 * |cells| < U32 - 16
    ensures Below(ReadPositions(cells), 16 * |cells|)
    ensures SetPulses(Blank(|cells|), ReadPositions(cells)) == cells
            <==> SinglePulses(cells) && Encodable(CaptureGaps(cells))
  {
    hide SetPulses, Pulses, FastGaps, Gaps, Positions, SaturateAll, SinglePulses, Encodable, Reloaded, Increasing;
    ReadersPositions(cells);
    PulsesExact(cells, 0);
    assert cells[0..] == cells;
    if SinglePulses(cells) {
      FastGapsExact(cells, 0, 0);
      TrackRoundTrip(cells);
      ReloadedIs(cells);
    } else if SetPulses(Blank(|cells|), ReadPositions(cells)) == cells {
      PulsesInside(cells, ReadPositions(cells));
      FastCount(cells, 0, 0);
      CountsAgree(cells, 0);
      assert false;
    }
  }

  lemma PulsesInside(cells: seq<Word>, p: seq<nat>)
    requires Below(p, 16 * |cells|) && SetPulses(Blank(|cells|), p) == cells
    ensures |Pulses(cells, 0)| <= |p|
  {
    hide SetPulses, Pulses, Pulse;
    var pulses := Pulses(cells, 0);
    PulsesExact(cells, 0);
    SetPulsesExact(Blank(|cells|), p);
    NoPulsesInBlank(|cells|);
    forall x | x in pulses
      ensures x in p
    {
      assert Pulse(cells, x);
    }
    NoMore(pulses, p);
  }

  lemma ReloadedIs(cells: seq<Word>)
    requires 16 * |cells| < U32 - 16 && Increasing(Pulses(cells, 0)) && Below(ReadPositions(cells), 16 * |cells|)
    requires FastGaps(cells, 0, 0) == Gaps(Pulses(cells, 0), 0)
    ensures Reloaded(cells) == SetPulses(Blank(|cells|), ReadPositions(cells))
  {
    hide SetPulses, Pulses, FastGaps, Gaps, Positions, SaturateAll;
  }

  // ----- the captured words, with words behind the last window after them -----

  predicate AllZero(x: seq<Word>)
  {
    forall i | 0 <= i < |x| :: x[i] == 0
  }

  function LastOf(p: seq<nat>, last: nat): nat
  {
    if p == [] then last else p[|p| - 1]
  }

  /** The cells from the last pulse on. */
  function Tail(w: seq<Word>): int
  {
    16 * |w| - LastOf(Pulses(w, 0), 0)
  }

  lemma LastOfCons(x: nat, p: seq<nat>, last: nat)
    ensures LastOf([x] + p, last) == LastOf(p, x)
  {
  }

  /** The carry behind words without double pulses. */
  lemma {:induction false} CarryIsTail(words: seq<Word>, i: nat, last: nat)
    requires SinglePulses(words) && i <= |words| && last <= 16 * i && 16 * |words| - last < U32
    ensures FastCarry(words, i, 16 * i - last) == 16 * |words| - LastOf(Pulses(words, 16 * i), last)
    decreases |words| - i
  {
    hide Cell, LutEntry, AtMostOnePulse, Pulses, Pulse, FastGaps, FastCarry, LastOf;
    if i == |words| {
      FastAtEnd(words, 16 * i - last);
      NothingLeft(words, 16 * i);
      assert LastOf([], last) == last by { NoLast(last); }
    } else if words[i] == 0 {
      ZeroWord(words, i);
      FastZero(words, i, 16 * i - last);
      CarryIsTail(words, i + 1, last);
    } else {
      var b := LutMeaning(words[i]);
      SinglePulseWord(words, i, b);
      FastSingle(words, i, 16 * i - last, b);
      CarryIsTail(words, i + 1, 16 * i + b);
      LastOfCons(16 * i + b, Pulses(words, 16 * i + 16), last);
    }
  }

  lemma NoLast(last: nat)
    ensures LastOf([], last) == last
  {
  }

  /** The first gap of words is no shorter than what was carried into them. */
  lemma {:induction false} FirstGapCarried(x: seq<Word>, i: nat, carry: nat)
    requires i <= |x| && carry + 16 * (|x| - i) < U32 - 16
    ensures FastGaps(x, i, carry) == [] <==> forall k | i <= k < |x| :: x[k] == 0
    ensures FastGaps(x, i, carry) != [] ==> FastGaps(x, i, carry)[0] >= carry
    decreases |x| - i
  {
    hide LutEntry, FastGaps, FastCarry;
    if i == |x| {
      FastAtEnd(x, carry);
    } else if x[i] == 0 {
      FastZero(x, i, carry);
      FirstGapCarried(x, i + 1, carry + 16);
    } else {
      EntryRange(x[i]);
      FastWord(x, i, carry);
    }
  }

  lemma PositionsHead(d: nat, gaps: seq<nat>, last: uint32)
    ensures var at := (last + d) % U32; Positions([d] + gaps, last) == [at] + Positions(gaps, at)
  {
    assert ([d] + gaps)[1..] == gaps;
  }

  lemma NoneBefore(b: seq<nat>, last: uint32)
    ensures Positions([] + b, last) == Positions([], last) + Positions(b, LastOf(Positions([], last), last))
    ensures LastOf(Positions([], last), last) == last
  {
    assert [] + b == b;
  }

  lemma AppendCons(d: nat, rest: seq<nat>, b: seq<nat>)
    ensures ([d] + rest) + b == [d] + (rest + b)
  {
  }

  lemma {:induction false} PositionsJoin(a: seq<nat>, b: seq<nat>, last: uint32)
    ensures LastOf(Positions(a, last), last) < U32
    ensures Positions(a + b, last) == Positions(a, last) + Positions(b, LastOf(Positions(a, last), last))
    decreases |a|
  {
    hide Positions, LastOf;
    if a == [] {
      NoneBefore(b, last);
    } else {
      var d, rest, at := a[0], a[1..], (last + a[0]) % U32;
      assert a == [d] + rest;
      AppendCons(d, rest, b);
      PositionsHead(d, rest, last);
      PositionsHead(d, rest + b, last);
      PositionsJoin(rest, b, at);
      LastOfCons(at, Positions(rest, at), last);
      AppendCons(at, Positions(rest, at), Positions(b, LastOf(Positions(rest, at), at)));
    }
  }

  lemma SaturateJoin(a: seq<nat>, b: seq<nat>)
    ensures SaturateAll(a + b) == SaturateAll(a) + SaturateAll(b)
  {
    hide Saturate;
  }

  predicate AtLeast(p: seq<nat>, bound: nat)
  {
    forall i | 0 <= i < |p| :: bound <= p[i]
  }

  lemma {:induction false} PositionsAhead(gaps: seq<nat>, last: nat)
    requires last + Sum(gaps) < U32
    ensures AtLeast(Positions(SaturateAll(gaps), last), last)
    decreases |gaps|
  {
    if gaps != [] {
      hide Sum, SaturateAll, Positions;
      SumCons(gaps[0], gaps[1..]);
      assert gaps == [gaps[0]] + gaps[1..];
      PositionsAhead(gaps[1..], last + Saturate(gaps[0]));
      FirstPosition(gaps[0], gaps[1..], last);
    } else {
      assert SaturateAll(gaps) == [];
    }
  }

  /** Where the pulses behind a pulse at last come to lie: none before the first, and the first where its gap says. */
  lemma PositionsBehind(gaps: seq<nat>, last: nat)
    requires gaps != [] && last + Sum(gaps) < U32
    ensures AtLeast(Positions(SaturateAll(gaps), last), last + Saturate(gaps[0]))
    ensures Positions(SaturateAll(gaps), last)[0] == last + Saturate(gaps[0])
  {
    hide Sum, SaturateAll, Positions, Saturate;
    SaturateAtMost(gaps[0]);
    SumCons(gaps[0], gaps[1..]);
    assert gaps == [gaps[0]] + gaps[1..];
    FirstPosition(gaps[0], gaps[1..], last);
    PositionsAhead(gaps[1..], last + Saturate(gaps[0]));
  }

  lemma SaturateAtMost(d: nat)
    ensures Saturate(d) <= d
  {
  }

  /** The first gap that is cut down makes a pulse where there was none. */
  lemma {:induction false} CutShows(p: seq<nat>, last: uint32) returns (c: nat)
    requires Increasing(p) && (p != [] ==> last <= p[0]) && forall i | 0 <= i < |p| :: p[i] < U32
    requires !Encodable(Gaps(p, last))
    ensures p != [] && last < c < LastOf(p, 0) && c !in p && c in Positions(SaturateAll(Gaps(p, last)), last)
    decreases |p|
  {
    TailIncreases(p);
    hide Gaps, Positions, SaturateAll, Encodable, Increasing;
    FirstSaturated(p, last, last);
    var q := Positions(SaturateAll(Gaps(p[1..], p[0])), last + Saturate(p[0] - last));
    if p[0] - last > SATURATED {
      c := last + SATURATED;
      BeforeFirst(p, c);
      assert ([c] + q)[0] == c;
    } else {
      c := CutShows(p[1..], p[0]);
      BehindFirst(p, q, c);
    }
  }

  lemma BeforeFirst(p: seq<nat>, c: nat)
    requires Increasing(p) && p != [] && c < p[0]
    ensures c !in p && c < LastOf(p, 0)
  {
  }

  lemma BehindFirst(p: seq<nat>, q: seq<nat>, c: nat)
    requires p != [] && p[1..] != [] && p[0] < c && c !in p[1..] && c in q
    ensures c !in p && c in [p[0]] + q && LastOf(p, 0) == LastOf(p[1..], 0)
  {
    assert p == [p[0]] + p[1..];
    assert ([p[0]] + q)[1..] == q;
  }

  /** The reader's positions: those of the captured words, and those of the words behind them. */
  lemma PositionsSplit(w: seq<Word>, x: seq<Word>)
    requires SinglePulses(w) && 16 * |w + x| < U32 - 16
    ensures Increasing(Pulses(w, 0)) && AtLeast(Pulses(w, 0), 0) && Tail(w) >= 0
    ensures var gaps, more := CaptureGaps(w), FastGaps(x, 0, Tail(w));
            var q := Positions(SaturateAll(gaps), 0);
            && Behind(q, Pulses(w, 0)) && (q == Pulses(w, 0) <==> Encodable(gaps))
            && LastOf(q, 0) <= LastOf(Pulses(w, 0), 0)
            && LastOf(q, 0) + Sum(more) < U32
            && ReadPositions(w + x) == q + Positions(SaturateAll(more), LastOf(q, 0))
  {
    hide FastGaps, FastCarry, EncodeGaps, Pulses, Gaps, Positions, SaturateAll, Encodable, Increasing, Sum;
    hide SinglePulses;
    PulsesExact(w, 0);
    FastGapsExact(w, 0, 0);
    CarryIsTail(w, 0, 0);
    ChunksJoin(w, x, 0);
    var gaps, more := FastGaps(w, 0, 0), FastGaps(x, 0, Tail(w));
    SaturatedPositions(Pulses(w, 0), 0, 0);
    SaturateJoin(gaps, more);
    PositionsJoin(SaturateAll(gaps), SaturateAll(more), 0);
    CellsConserved(x, 0, Tail(w));
  }

  lemma PrefixPulses(w: seq<Word>, v: seq<Word>)
    requires |w| <= |v|
    ensures v[..|w|] == w <==> forall c: nat | c < 16 * |w| :: Pulse(v, c) <==> Pulse(w, c)
  {
    hide Cell;
    if forall c: nat | c < 16 * |w| :: Pulse(v, c) <==> Pulse(w, c) {
      forall c: nat | c < 16 * |w|
        ensures Pulse(v[..|w|], c) <==> Pulse(w, c)
      {
        assert Pulse(v, c) <==> Pulse(w, c);
      }
      SamePulses(v[..|w|], w);
    }
  }

  /** Setting pulses rebuilds the first words exactly when they are the pulses of these words, as far as they go. */
  lemma PrefixExact(w: seq<Word>, n: nat, p: seq<nat>)
    requires |w| <= n && Below(p, 16 * n)
    ensures SetPulses(Blank(n), p)[..|w|] == w <==> forall c: nat | c < 16 * |w| :: c in p <==> c in Pulses(w, 0)
  {
    hide Pulse, Pulses, SetPulses, Blank;
    var v := SetPulses(Blank(n), p);
    SetPulsesExact(Blank(n), p);
    NoPulsesInBlank(n);
    PulsesExact(w, 0);
    PrefixPulses(w, v);
  }

  /** What has to hold of the captured words, and of the words looked at behind them, for the former to come back. */
  ghost predicate ComesBack(w: seq<Word>, x: seq<Word>)
  {
    Encodable(CaptureGaps(w)) && (AllZero(x) || Tail(w) <= SATURATED)
  }

  /** When they come back, what lies behind adds nothing to them. */
  lemma NothingAdded(w: seq<Word>, x: seq<Word>, c: nat)
    requires SinglePulses(w) && 16 * |w + x| < U32 - 16 && ComesBack(w, x) && c < 16 * |w|
    ensures c in ReadPositions(w + x) <==> c in Pulses(w, 0)
  {
    hide FastGaps, Pulses, Gaps, Positions, SaturateAll, Encodable, Increasing, Sum, SinglePulses, CaptureGaps;
    PositionsSplit(w, x);
    var last, more := LastOf(Pulses(w, 0), 0), FastGaps(x, 0, Tail(w));
    var r := Positions(SaturateAll(more), last);
    FirstGapCarried(x, 0, Tail(w));
    if more != [] {
      PositionsBehind(more, last);
      assert AtLeast(r, 16 * |w|);
    } else {
      assert r == [] by { NoPositions(last); }
    }
  }

  lemma NoPositions(last: uint32)
    ensures Positions(SaturateAll([]), last) == []
  {
    assert SaturateAll([]) == [];
  }

  /** When they do not, some pulse comes to lie where there was none. */
  lemma PulseAdded(w: seq<Word>, x: seq<Word>) returns (c: nat)
    requires SinglePulses(w) && 16 * |w + x| < U32 - 16 && !ComesBack(w, x)
    ensures c < 16 * |w| && c in ReadPositions(w + x) && c !in Pulses(w, 0)
  {
    hide FastGaps, Pulses, Gaps, Positions, SaturateAll, Encodable, Sum, SinglePulses, CaptureGaps;
    PositionsSplit(w, x);
    var p := Pulses(w, 0);
    CaptureGapsAre(w);
    if !Encodable(CaptureGaps(w)) {
      c := CutShows(p, 0);
    } else {
      var last, more := LastOf(p, 0), FastGaps(x, 0, Tail(w));
      FirstGapCarried(x, 0, Tail(w));
      PositionsBehind(more, last);
      c := last + SATURATED;
      assert Positions(SaturateAll(more), last)[0] == c;
      assert p != [] ==> forall i | 0 <= i < |p| :: p[i] <= last;
    }
  }

  lemma CaptureGapsAre(w: seq<Word>)
    ensures Increasing(Pulses(w, 0)) && CaptureGaps(w) == Gaps(Pulses(w, 0), 0)
  {
    PulsesExact(w, 0);
  }

  /**
   Captured words without double pulses come back exactly when no gap is cut down, that to the next pulse behind them
   included; whatever the words behind them hold otherwise.
   */
  lemma CapturedComesBack(w: seq<Word>, x: seq<Word>)
    requires SinglePulses(w) && 16 * |w + x| < U32 - 16
    ensures Below(ReadPositions(w + x), 16 * |w + x|)
    ensures SetPulses(Blank(|w + x|), ReadPositions(w + x))[..|w|] == w <==> ComesBack(w, x)
  {
    hide SinglePulses, ComesBack, ReadPositions, SetPulses, Pulses, Blank;
    ReadersPositions(w + x);
    PrefixExact(w, |w + x|, ReadPositions(w + x));
    if ComesBack(w, x) {
      forall c: nat | c < 16 * |w|
        ensures c in ReadPositions(w + x) <==> c in Pulses(w, 0)
      {
        NothingAdded(w, x, c);
      }
    } else {
      var c := PulseAdded(w, x);
    }
  }

  /** With double pulses the words may come back by accident, the next word making up for the pulse that was lost. */
  lemma LostPulseMadeUpFor()
    ensures ReadPositions([0xC000, 0x4000]) == [0, 1] && !SinglePulses([0xC000])
    ensures SetPulses(Blank(2), [0, 1])[..1] == [0xC000]
  {
    hide WithCell, Cell, LutEntry, Pulses, BitAt, AtMostOnePulse, FastGaps, SetPulses, SinglePulses;
    DoublePulseIsLost();
    FirstTwoCellsSet();
    TwoGaps();
    assert SaturateAll([0, 1]) == [0, 1];
    assert [0, 1][1..] == [1];
  }

  lemma FirstTwoCellsSet()
    ensures SetPulses(Blank(2), [0, 1]) == [0xC000, 0]
  {
    hide WithCell;
    FirstTwoCells();
    assert [0, 1][1..] == [1] && [1][1..] == [];
    assert SetPulses([0xC000, 0], []) == [0xC000, 0];
    assert SetPulses([0x8000, 0], [1]) == [0xC000, 0];
  }

  lemma TwoGaps()
    ensures FastGaps([0xC000, 0x4000], 0, 0) == [0, 1]
  {
    hide LutEntry, FastGaps, FastCarry;
    SecondCellOnly();
    FastWord([0xC000, 0x4000], 0, 0);
    FastWord([0xC000, 0x4000], 1, 0);
    FastAtEnd([0xC000, 0x4000], 15);
  }

  lemma SecondCellOnly()
    ensures LutEntry(0x4000) == 0x10F && LutEntry(0xC000) == 0
  {
    hide BitAt, AtMostOnePulse;
    assert Pow2(14) == 0x4000 by { Pow2Values(); }
    LutSingle(0x4000, 1, 16);
    DoublePulseIsLost();
    assert !AtMostOnePulse([0xC000][0]);
    var b := LutMeaning(0xC000);
  }
}
