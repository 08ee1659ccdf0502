/** The reference encoder of a track and the decoder that puts a stream back into the disk image. */
module TrackCodec {
  import opened Bytes
  import opened Flux

  // ----- where a track lies -----

  /**
   Tracks follow each other, and the words of the two sides of a track alternate.  trackSize is the size of a track
   in bytes, both sides.
   */
  function WordIndex(trackSize: nat, track: nat, side: nat, i: nat): nat
  {
    trackSize / 2 * track + side + 2 * i
  }

  /** No word belongs to two places. */
  lemma WordsApart(trackSize: nat, t1: nat, s1: nat, i1: nat, t2: nat, s2: nat, i2: nat)
    requires trackSize % 4 == 0 && s1 < 2 && s2 < 2 && i1 < trackSize / 4 && i2 < trackSize / 4
    requires WordIndex(trackSize, t1, s1, i1) == WordIndex(trackSize, t2, s2, i2)
    ensures t1 == t2 && s1 == s2 && i1 == i2
  {
    var h := trackSize / 2;
    SameBlock(h, t1, s1 + 2 * i1, t2, s2 + 2 * i2);
  }

  lemma {:induction false} SameBlock(h: nat, t1: nat, r1: nat, t2: nat, r2: nat)
    requires r1 < h && r2 < h && h * t1 + r1 == h * t2 + r2
    ensures t1 == t2 && r1 == r2
    decreases t1 + t2
  {
    if t1 > 0 {
      assert h * t1 == h * (t1 - 1) + h;
    }
    if t2 > 0 {
      assert h * t2 == h * (t2 - 1) + h;
    }
    if t1 > 0 && t2 > 0 {
      SameBlock(h, t1 - 1, r1, t2 - 1, r2);
    }
  }

  /** Words of one side of a track, the cells of both sides rounded up to whole words. */
  function WordsOfTrack(trackSize: nat): nat
  {
    (trackSize + 3) / 4
  }

  /** The n words of one side that start at base. */
  function Side(image: seq<Word>, base: nat, n: nat): (w: seq<Word>)
    requires n == 0 || base + 2 * (n - 1) < |image|
    ensures |w| == n
  {
    seq(n, i requires 0 <= i < n => image[base + 2 * i])
  }

  lemma SideIs(image: seq<Word>, base: nat, n: nat, i: nat)
    requires i < n && base + 2 * (n - 1) < |image|
    ensures base + 2 * i < |image| && Side(image, base, n)[i] == image[base + 2 * i]
  {
  }

  predicate OnSide(x: nat, base: nat, n: nat)
  {
    base <= x < base + 2 * n && (x - base) % 2 == 0
  }

  /** No word of a side of a track is one of another side or another track. */
  predicate Apart(trackSize: nat, t1: nat, s1: nat, t2: nat, s2: nat)
  {
    forall i: nat | i < WordsOfTrack(trackSize) ::
      !OnSide(WordIndex(trackSize, t2, s2, i), WordIndex(trackSize, t1, s1, 0), WordsOfTrack(trackSize))
  }

  ghost predicate AllApart(trackSize: nat)
  {
    forall t1: nat, s1: nat, t2: nat, s2: nat | s1 < 2 && s2 < 2 && (t1, s1) != (t2, s2) ::
      Apart(trackSize, t1, s1, t2, s2)
  }

  lemma SidesApart(trackSize: nat, t1: nat, s1: nat, t2: nat, s2: nat)
    requires trackSize % 4 == 0 && s1 < 2 && s2 < 2 && (t1, s1) != (t2, s2)
    ensures Apart(trackSize, t1, s1, t2, s2)
  {
    hide WordIndex;
    var n, base := WordsOfTrack(trackSize), WordIndex(trackSize, t1, s1, 0);
    forall i: nat | i < n
      ensures !OnSide(WordIndex(trackSize, t2, s2, i), base, n)
    {
      var x := WordIndex(trackSize, t2, s2, i);
      if OnSide(x, base, n) {
        var k := (x - base) / 2;
        WordBehind(trackSize, t1, s1, k);
        WordsApart(trackSize, t1, s1, k, t2, s2, i);
      }
    }
  }

  lemma WordBehind(trackSize: nat, track: nat, side: nat, i: nat)
    ensures WordIndex(trackSize, track, side, i) == WordIndex(trackSize, track, side, 0) + 2 * i
  {
  }

  /** Where the next track starts when words are cut, and a word of the first track there. */
  lemma WordCut(trackSize: nat) returns (side: nat)
    requires trackSize % 4 != 0
    ensures side < 2
    ensures OnSide(WordIndex(trackSize, 1, 0, 0), WordIndex(trackSize, 0, side, 0), WordsOfTrack(trackSize))
  {
    side := trackSize / 2 % 2;
    FirstWord(trackSize, 0, side);
    FirstWord(trackSize, 1, 0);
  }

  lemma FirstWord(trackSize: nat, track: nat, side: nat)
    requires track < 2
    ensures WordIndex(trackSize, track, side, 0) == (if track == 0 then 0 else trackSize / 2) + side
  {
  }

  lemma TracksOverlap(trackSize: nat)
    requires trackSize % 4 != 0
    ensures !AllApart(trackSize)
  {
    hide WordIndex, OnSide;
    var side := WordCut(trackSize);
    assert WordsOfTrack(trackSize) > 0;
    assert !Apart(trackSize, 0, side, 1, 0);
  }

  /** Tracks and sides do not overlap exactly when the size of a track is a multiple of four bytes. */
  lemma ApartExactly(trackSize: nat)
    ensures AllApart(trackSize) <==> trackSize % 4 == 0
  {
    hide Apart;
    if trackSize % 4 == 0 {
      forall t1: nat, s1: nat, t2: nat, s2: nat | s1 < 2 && s2 < 2 && (t1, s1) != (t2, s2)
        ensures Apart(trackSize, t1, s1, t2, s2)
      {
        SidesApart(trackSize, t1, s1, t2, s2);
      }
    } else {
      TracksOverlap(trackSize);
    }
  }

  // ----- encoding -----

  /** What an encoder still has to write when it is at cell j and the last pulse was at last. */
  function Remaining(words: seq<Word>, j: nat, last: nat): seq<byte>
    requires last <= j
  {
    PulsesExact(words, j);
    EncodeGaps(Gaps(Pulses(words, j), last))
  }

  lemma RemainingPulse(words: seq<Word>, j: nat, last: nat)
    requires last <= j < 16 * |words| && Pulse(words, j)
    ensures Remaining(words, j, last) == EncodeGap(j - last) + Remaining(words, j + 1, j)
    ensures |Pulses(words, j)| == 1 + |Pulses(words, j + 1)|
  {
    hide Pulse, EncodeGap;
    PulsesExact(words, j);
    PulsesExact(words, j + 1);
    assert Pulses(words, j)[1..] == Pulses(words, j + 1);
    var g := Gaps(Pulses(words, j), last);
    assert g[0] == j - last && g[1..] == Gaps(Pulses(words, j + 1), j);
  }

  lemma RemainingNone(words: seq<Word>, j: nat, last: nat)
    requires last <= j < 16 * |words| && !Pulse(words, j)
    ensures Remaining(words, j, last) == Remaining(words, j + 1, last)
    ensures |Pulses(words, j)| == |Pulses(words, j + 1)|
  {
  }

  lemma RemainingZero(words: seq<Word>, j: nat, last: nat)
    requires last <= j < 16 * |words| && j % 16 == 0 && words[j / 16] == 0
    ensures Remaining(words, j, last) == Remaining(words, j + 16, last)
    ensures |Pulses(words, j)| == |Pulses(words, j + 16)|
  {
    hide Cell, Pulses, EncodeGaps, Gaps;
    ZeroWord(words, j / 16);
    assert 16 * (j / 16) == j;
  }

  lemma RemainingEnds(words: seq<Word>, j: nat, last: nat)
    requires j >= 16 * |words| && last <= j
    ensures Pulses(words, j) == [] && Remaining(words, j, last) == []
    ensures Increasing(Pulses(words, 0)) && Remaining(words, 0, 0) == EncodeGaps(Gaps(Pulses(words, 0), 0))
  {
    PulsesExact(words, 0);
  }

  /** A code never takes more bytes than the cells it stands for. */
  lemma GapSize(d: nat)
    ensures |EncodeGap(d)| <= d + 1 && (d > 0 ==> |EncodeGap(d)| <= d)
  {
  }

  /** Appends the code of a gap. */
  method EmitGap(data: array<byte>, k0: nat, d: nat) returns (k: nat)
    requires k0 + |EncodeGap(d)| <= data.Length
    modifies data
    ensures k == k0 + |EncodeGap(d)|
    ensures data[..k] == old(data[..k0]) + EncodeGap(d)
  {
    k := k0;
    if d < 0x80 {
      data[k] := d;
      k := k + 1;
    } else if d < 0x4000 {
      data[k], data[k + 1] := 0x80 + d / 0x100, d % 0x100;
      k := k + 2;
    } else if d < 0x20_0000 {
      data[k], data[k + 1], data[k + 2] := 0xC0 + d / 0x1_0000, d / 0x100 % 0x100, d % 0x100;
      k := k + 3;
    } else if d < 0x1000_0000 {
      data[k], data[k + 1] := 0xE0 + d / 0x100_0000, d / 0x1_0000 % 0x100;
      data[k + 2], data[k + 3] := d / 0x100 % 0x100, d % 0x100;
      k := k + 4;
    } else {
      data[k], data[k + 1], data[k + 2], data[k + 3] := 0xE0 + 0x0F, 0xFF, 0xFF, 0xFF;
      k := k + 4;
    }
  }

  /** At cell j, with the last pulse at last, out is what should have been written so far. */
  ghost predicate Encoded(words: seq<Word>, j: nat, last: nat, nbPulses: nat, out: seq<byte>)
  {
    && last <= j <= 16 * |words|
    && out + Remaining(words, j, last) == Remaining(words, 0, 0)
    && nbPulses + |Pulses(words, j)| == |Pulses(words, 0)|
    && if nbPulses == 0 then out == [] && last == 0 else |out| <= last + 1 <= j
  }

  lemma EncodedPulse(words: seq<Word>, j: nat, last: nat, nbPulses: nat, out: seq<byte>)
    requires Encoded(words, j, last, nbPulses, out) && j < 16 * |words| && Pulse(words, j)
    ensures last <= j && |out| + |EncodeGap(j - last)| <= j + 1
    ensures Encoded(words, j + 1, j, nbPulses + 1, out + EncodeGap(j - last))
  {
    hide Pulse, EncodeGap, Remaining, Pulses;
    RemainingPulse(words, j, last);
    GapSize(j - last);
    var rest := Remaining(words, j + 1, j);
    assert (out + EncodeGap(j - last)) + rest == out + (EncodeGap(j - last) + rest);
  }

  lemma EncodedNone(words: seq<Word>, j: nat, last: nat, nbPulses: nat, out: seq<byte>)
    requires Encoded(words, j, last, nbPulses, out) && j < 16 * |words|
    ensures !Pulse(words, j) ==> Encoded(words, j + 1, last, nbPulses, out)
    ensures j % 16 == 0 && words[j / 16] == 0 ==> Encoded(words, j + 16, last, nbPulses, out)
  {
    hide Pulse, Remaining, Pulses;
    if !Pulse(words, j) {
      RemainingNone(words, j, last);
    }
    if j % 16 == 0 && words[j / 16] == 0 {
      RemainingZero(words, j, last);
    }
  }

  lemma EncodedStarts(words: seq<Word>)
    ensures Encoded(words, 0, 0, 0, [])
  {
    hide Remaining, Pulses;
    assert [] + Remaining(words, 0, 0) == Remaining(words, 0, 0);
  }

  lemma EncodedEnds(words: seq<Word>, last: nat, nbPulses: nat, out: seq<byte>)
    requires Encoded(words, 16 * |words|, last, nbPulses, out)
    ensures var p := Pulses(words, 0); Increasing(p) && nbPulses == |p| && out == EncodeGaps(Gaps(p, 0))
  {
    hide Remaining, Pulses, Increasing, Gaps;
    RemainingEnds(words, 16 * |words|, last);
    assert out + [] == out;
  }

  /** Encodes one side of a track, cell by cell, passing over words without pulses. */
  method ConvertTrack(image: array<Word>, base: nat, trackSize: nat)
    returns (data: array<byte>, trackLength: nat, outSize: nat, nbPulses: nat)
    requires trackSize > 0 && trackSize * 8 < U32
    requires base + 2 * (WordsOfTrack(trackSize) - 1) < image.Length
    ensures trackLength == data.Length == 16 * WordsOfTrack(trackSize) && outSize <= data.Length
    ensures var p := Pulses(Side(image[..], base, WordsOfTrack(trackSize)), 0);
            && nbPulses == |p|
            && Increasing(p) && data[..outSize] == EncodeGaps(Gaps(p, 0))
  {
    hide Cell, EncodeGap, Pulses, Encoded, Increasing, Gaps, Side;
    ghost var words := Side(image[..], base, WordsOfTrack(trackSize));
    trackLength := trackSize * 8 / 2;
    if trackLength % 16 != 0 {
      trackLength := trackLength / 16 * 16 + 16;
    }
    data := new byte[trackLength](_ => 0);
    var k: nat, oldBitPos: nat, j: nat := 0, 0, 0;
    nbPulses := 0;
    assert data[..0] == [];
    EncodedStarts(words);
    while j < trackLength
      invariant j <= trackLength == 16 * |words|
      invariant j % 16 != 0 ==> words[j / 16] != 0
      invariant k <= data.Length && Encoded(words, j, oldBitPos, nbPulses, data[..k])
    {
      SideIs(image[..], base, |words|, j / 16);
      var word := image[base + 2 * (j / 16)];
      EncodedNone(words, j, oldBitPos, nbPulses, data[..k]);
      if word != 0 {
        if Cell(word, j % 16) {
          EncodedPulse(words, j, oldBitPos, nbPulses, data[..k]);
          k := EmitGap(data, k, j - oldBitPos);
          nbPulses := nbPulses + 1;
          oldBitPos := j;
        }
        j := j + 1;
      } else {
        j := j + 16;
      }
    }
    EncodedEnds(words, oldBitPos, nbPulses, data[..k]);
    outSize := k;
  }

  // ----- decoding -----

  /** Reads one gap; the branches test the leading bits of the first byte. */
  method ReadGap(data: seq<byte>, k0: nat) returns (length: nat, k: nat)
    requires DecodeGap(data, k0).Some?
    ensures DecodeGap(data, k0) == Some(Gap(length, k))
  {
    var c: nat := data[k0];
    k := k0 + 1;
    if c < 0x80 {
      length := c;
    } else if c / 0x40 == 2 {
      length := Join(c % 0x40, data[k]);
      k := k + 1;
    } else if c / 0x20 == 6 {
      length := Join(Join(c % 0x20, data[k]), data[k + 1]);
      k := k + 2;
    } else if c / 0x10 == 14 {
      length := Join(Join(Join(c % 0x10, data[k]), data[k + 1]), data[k + 2]);
      k := k + 3;
    } else {
      length := 0;
    }
  }

  /**
   The streams a caller may pass: long enough, with all pulses inside n words.  The source checks neither; n may reach
   behind the track, as far as the image does.
   */
  ghost predicate FitsTrack(data: seq<byte>, count: nat, n: nat)
  {
    && DecodeGaps(data, 0, count).Some?
    && var p := Positions(DecodeGaps(data, 0, count).value, 0);
       forall i | 0 <= i < |p| :: p[i] < 16 * n
  }

  /** Sets one pulse of a side. */
  method SetCellOf(image: array<Word>, base: nat, n: nat, at: nat)
    requires at < 16 * n && base + 2 * (n - 1) < image.Length
    modifies image
    ensures var side := old(Side(image[..], base, n));
            Side(image[..], base, n) == side[at / 16 := WithCell(side[at / 16], at % 16)]
    ensures forall x | 0 <= x < image.Length && !OnSide(x, base, n) :: image[x] == old(image[x])
  {
    hide WithCell;
    var x := base + 2 * (at / 16);
    image[x] := WithCell(image[x], at % 16);
  }

  lemma DecodeStep(data: seq<byte>, k: nat, count: nat, cumul: uint32)
    requires count > 0 && DecodeGaps(data, k, count).Some?
    ensures DecodeGap(data, k).Some?
    ensures var gap := DecodeGap(data, k).value;
            var at := (cumul + gap.length) % U32;
            && DecodeGaps(data, gap.next, count - 1).Some?
            && Positions(DecodeGaps(data, k, count).value, cumul)
               == [at] + Positions(DecodeGaps(data, gap.next, count - 1).value, at)
  {
    hide DecodeGap;
    var gap := DecodeGap(data, k).value;
    assert DecodeGaps(data, k, count).value[1..] == DecodeGaps(data, gap.next, count - 1).value;
  }

  /** Sets the pulses of a stream in one side of a track, and touches no other word of the image. */
  method DecodeStream(image: array<Word>, base: nat, n: nat, data: seq<byte>, count: nat)
    requires n == 0 || base + 2 * (n - 1) < image.Length
    requires FitsTrack(data, count, n)
    modifies image
    ensures Side(image[..], base, n)
            == SetPulses(old(Side(image[..], base, n)), Positions(DecodeGaps(data, 0, count).value, 0))
    ensures forall x | 0 <= x < image.Length && !OnSide(x, base, n) :: image[x] == old(image[x])
  {
    hide DecodeGap, WithCell, OnSide, DecodeGaps, Positions, Side;
    ghost var p := Positions(DecodeGaps(data, 0, count).value, 0);
    var l, k: nat, cumul: uint32 := 0, 0, 0;
    while l < count
      invariant 0 <= l <= count
      invariant DecodeGaps(data, k, count - l).Some?
      invariant p[l..] == Positions(DecodeGaps(data, k, count - l).value, cumul)
      invariant SetPulses(Side(image[..], base, n), p[l..]) == SetPulses(old(Side(image[..], base, n)), p)
      invariant forall x | 0 <= x < image.Length && !OnSide(x, base, n) :: image[x] == old(image[x])
    {
      DecodeStep(data, k, count - l, cumul);
      var length;
      length, k := ReadGap(data, k);
      cumul := (cumul + length) % U32;
      assert p[l..][0] == cumul && p[l..][1..] == p[l + 1..];
      SetCellOf(image, base, n, cumul);
      l := l + 1;
    }
  }

  // ----- there and back -----

  predicate Encodable(gaps: seq<nat>)
  {
    forall i | 0 <= i < |gaps| :: gaps[i] <= SATURATED
  }

  /** The first gap of a capture, cut down, and the others. */
  lemma FirstSaturated(p: seq<nat>, last: nat, cumul: uint32)
    requires Increasing(p) && p != [] && last <= p[0] < U32 && cumul <= last
    ensures var g1 := Gaps(p[1..], p[0]);
            var c1 := cumul + Saturate(p[0] - last);
            && Gaps(p, last) == [p[0] - last] + g1
            && Positions(SaturateAll(Gaps(p, last)), cumul) == [c1] + Positions(SaturateAll(g1), c1)
            && (Encodable(Gaps(p, last)) <==> p[0] - last <= SATURATED && Encodable(g1))
  {
    hide Encodable, SaturateAll;
    var g1 := Gaps(p[1..], p[0]);
    SaturateCons(p[0] - last, g1);
    EncodableCons(p[0] - last, g1);
    assert SaturateAll(Gaps(p, last))[1..] == SaturateAll(g1);
  }

  lemma SaturateCons(d: nat, gaps: seq<nat>)
    ensures SaturateAll([d] + gaps) == [Saturate(d)] + SaturateAll(gaps)
  {
    hide Saturate;
    var a, b := SaturateAll([d] + gaps), [Saturate(d)] + SaturateAll(gaps);
    forall i | 0 <= i < |a|
      ensures a[i] == b[i]
    {
      if i > 0 {
        assert ([d] + gaps)[i] == gaps[i - 1];
      }
    }
  }

  lemma EncodableCons(d: nat, gaps: seq<nat>)
    ensures Encodable([d] + gaps) <==> d <= SATURATED && Encodable(gaps)
  {
    var g := [d] + gaps;
    assert forall i | 0 <= i < |gaps| :: gaps[i] == g[i + 1];
    assert g[0] == d;
  }

  /** Every position of q is at or before the one of p. */
  predicate Behind(q: seq<nat>, p: seq<nat>)
  {
    |q| == |p| && forall i | 0 <= i < |p| :: q[i] <= p[i]
  }

  /** Decoding cut-down gaps gives the positions back exactly when none was cut down. */
  lemma {:induction false} SaturatedPositions(p: seq<nat>, last: nat, cumul: uint32)
    requires Increasing(p) && (p != [] ==> last <= p[0]) && cumul <= last
    requires forall i | 0 <= i < |p| :: p[i] < U32
    ensures var q := Positions(SaturateAll(Gaps(p, last)), cumul);
            && Behind(q, p)
            && (q == p <==> (p == [] || cumul == last) && Encodable(Gaps(p, last)))
    decreases |p|
  {
    if p != [] {
      TailIncreases(p);
      hide Gaps, Positions, SaturateAll, Encodable, Increasing, Behind;
      var c1 := cumul + Saturate(p[0] - last);
      FirstSaturated(p, last, cumul);
      SaturatedPositions(p[1..], p[0], c1);
      PositionsCons(p, c1, Positions(SaturateAll(Gaps(p[1..], p[0])), c1));
    }
  }

  lemma TailIncreases(p: seq<nat>)
    requires Increasing(p) && p != [] && forall i | 0 <= i < |p| :: p[i] < U32
    ensures Increasing(p[1..]) && (p[1..] != [] ==> p[0] <= p[1..][0])
    ensures forall i | 0 <= i < |p[1..]| :: p[1..][i] < U32
  {
    assert |p| > 1 ==> p[0] < p[1];
  }

  lemma PositionsCons(p: seq<nat>, c: nat, q: seq<nat>)
    requires p != [] && c <= p[0] && Behind(q, p[1..])
    ensures [c] + q == p <==> c == p[0] && q == p[1..]
    ensures Behind([c] + q, p)
  {
    assert p == [p[0]] + p[1..];
    assert ([c] + q)[1..] == q;
  }

  /** The gaps between the pulses of a capture. */
  ghost function CaptureGaps(words: seq<Word>): seq<nat>
  {
    PulsesExact(words, 0);
    Gaps(Pulses(words, 0), 0)
  }

  /** What the decoder makes of an encoded capture, in a blank track. */
  ghost function Reloaded(words: seq<Word>): seq<Word>
    requires 16 * |words| < U32
  {
    var p := Pulses(words, 0);
    PulsesExact(words, 0);
    SaturatedPositions(p, 0, 0);
    SetPulses(Blank(|words|), Positions(SaturateAll(Gaps(p, 0)), 0))
  }

  /** Every stream an encoder writes is one the decoder may be given, and Reloaded is what it then produces. */
  lemma ReloadedIsDecoded(words: seq<Word>)
    requires 16 * |words| < U32
    ensures var p := Pulses(words, 0);
            && Increasing(p)
            && var data := EncodeGaps(Gaps(p, 0));
               && FitsTrack(data, |p|, |words|)
               && Reloaded(words) == SetPulses(Blank(|words|), Positions(DecodeGaps(data, 0, |p|).value, 0))
  {
    var p := Pulses(words, 0);
    PulsesExact(words, 0);
    GapsCode(EncodeGaps(Gaps(p, 0)), 0, Gaps(p, 0));
    SaturatedPositions(p, 0, 0);
  }

  /** A track comes back unchanged exactly when no gap needs more than 28 bits. */
  lemma TrackRoundTrip(words: seq<Word>)
    requires 16 * |words| < U32
    ensures Increasing(Pulses(words, 0))
    ensures Reloaded(words) == words <==> Encodable(Gaps(Pulses(words, 0), 0))
  {
    hide SetPulses, Pulses, Pulse, EncodeGaps;
    var p := Pulses(words, 0);
    PulsesExact(words, 0);
    SaturatedPositions(p, 0, 0);
    var q := Positions(SaturateAll(Gaps(p, 0)), 0);
    if q == p {
      RebuildsWords(words);
    } else if Reloaded(words) == words {
      SaturatedIncreasing(p, 0, 0);
      FindsPulses(|words|, q);
    }
  }

  /** A single pulse behind 2^28 empty cells comes back one cell too early. */
  lemma LongGapIsCut() returns (words: seq<Word>)
    ensures |words| == 0x100_0001 && Pulses(words, 0) == [0x1000_0000]
    ensures !Encodable(CaptureGaps(words)) && Pulses(Reloaded(words), 0) == [0x0FFF_FFFF]
  {
    hide SetPulses, Pulses;
    var n := 0x100_0001;
    words := SetPulses(Blank(n), [0x1000_0000]);
    FindsPulses(n, [0x1000_0000]);
    var gaps := CaptureGaps(words);
    assert gaps == [0x1000_0000];
    assert gaps[0] > SATURATED;
    var q := Positions(SaturateAll(gaps), 0);
    assert q == [0x0FFF_FFFF];
    FindsPulses(n, q);
  }

  /**
   Encodes a side of one image and decodes it into a blank side of another: it comes back exactly when no gap needs
   more than 28 bits, and every other side and track stays as it was.
   */
  method CopySide(source: array<Word>, target: array<Word>, trackSize: nat, track: nat, side: nat)
    requires source != target && side < 2
    requires trackSize > 0 && trackSize % 4 == 0 && trackSize * 8 < U32
    requires WordIndex(trackSize, track, side, trackSize / 4 - 1) < source.Length
    requires WordIndex(trackSize, track, side, trackSize / 4 - 1) < target.Length
    requires forall i: nat | i < trackSize / 4 && WordIndex(trackSize, track, side, i) < target.Length ::
               target[WordIndex(trackSize, track, side, i)] == 0
    modifies target
    ensures var base, n := WordIndex(trackSize, track, side, 0), trackSize / 4;
            var words := Side(source[..], base, n);
            Side(target[..], base, n) == words <==> Encodable(CaptureGaps(words))
    ensures forall t: nat, s: nat, i: nat |
              s < 2 && (t, s) != (track, side) && i < trackSize / 4 && WordIndex(trackSize, t, s, i) < target.Length ::
              target[WordIndex(trackSize, t, s, i)] == old(target[WordIndex(trackSize, t, s, i)])
  {
    hide WordIndex, OnSide, Pulses, Gaps, EncodeGaps, DecodeGaps, Positions, SetPulses, Encodable, CaptureGaps;
    hide FitsTrack, Side, Apart;
    var base, n := WordIndex(trackSize, track, side, 0), trackSize / 4;
    WordBehind(trackSize, track, side, n - 1);
    ghost var words := Side(source[..], base, n);
    BlankSide(target[..], trackSize, track, side);
    var data, trackLength, outSize, nbPulses := ConvertTrack(source, base, trackSize);
    ReloadedIsDecoded(words);
    TrackRoundTrip(words);
    GapsAre(words);
    DecodeStream(target, base, n, data[..outSize], nbPulses);
    forall t: nat, s: nat, i: nat |
      s < 2 && (t, s) != (track, side) && i < trackSize / 4 && WordIndex(trackSize, t, s, i) < target.Length
      ensures target[WordIndex(trackSize, t, s, i)] == old(target[WordIndex(trackSize, t, s, i)])
    {
      SidesApart(trackSize, track, side, t, s);
      ApartAt(trackSize, track, side, t, s, i);
    }
  }

  lemma ApartAt(trackSize: nat, t1: nat, s1: nat, t2: nat, s2: nat, i: nat)
    requires Apart(trackSize, t1, s1, t2, s2) && i < trackSize / 4 && trackSize % 4 == 0
    ensures !OnSide(WordIndex(trackSize, t2, s2, i), WordIndex(trackSize, t1, s1, 0), trackSize / 4)
  {
    hide WordIndex, OnSide;
  }

  lemma GapsAre(words: seq<Word>)
    ensures Increasing(Pulses(words, 0)) && CaptureGaps(words) == Gaps(Pulses(words, 0), 0)
  {
    PulsesExact(words, 0);
  }

  lemma BlankSide(image: seq<Word>, trackSize: nat, track: nat, side: nat)
    requires trackSize > 0 && trackSize % 4 == 0
    requires WordIndex(trackSize, track, side, trackSize / 4 - 1) < |image|
    requires forall i: nat | i < trackSize / 4 && WordIndex(trackSize, track, side, i) < |image| ::
               image[WordIndex(trackSize, track, side, i)] == 0
    ensures var base, n := WordIndex(trackSize, track, side, 0), trackSize / 4;
            base + 2 * (n - 1) < |image| && Side(image, base, n) == Blank(n)
  {
    hide WordIndex;
    var base, n := WordIndex(trackSize, track, side, 0), trackSize / 4;
    WordBehind(trackSize, track, side, n - 1);
    forall i | 0 <= i < n
      ensures Side(image, base, n)[i] == 0
    {
      WordBehind(trackSize, track, side, i);
      assert image[WordIndex(trackSize, track, side, i)] == 0;
    }
  }

  /** In particular, a track shorter than 2^28 cells does. */
  lemma ShortTrackRoundTrip(words: seq<Word>)
    requires 16 * |words| <= 0x1000_0000
    ensures Reloaded(words) == words
  {
    var p := Pulses(words, 0);
    TrackRoundTrip(words);
    GapsBounded(p, 0);
  }

  lemma {:induction false} GapsBounded(p: seq<nat>, last: nat)
    requires Increasing(p) && (p != [] ==> last <= p[0]) && forall i | 0 <= i < |p| :: p[i] <= SATURATED
    ensures Encodable(Gaps(p, last))
    decreases |p|
  {
    if p != [] {
      GapsBounded(p[1..], p[0]);
    }
  }

  lemma {:induction false} SaturatedIncreasing(p: seq<nat>, last: nat, cumul: uint32)
    requires Increasing(p) && (p != [] ==> last <= p[0]) && cumul <= last
    requires forall i | 0 <= i < |p| :: p[i] < U32
    ensures var q := Positions(SaturateAll(Gaps(p, last)), cumul);
            Increasing(q) && forall i | 0 <= i < |q| :: cumul <= q[i] && (last < p[0] ==> cumul < q[i])
    decreases |p|
  {
    if p != [] {
      hide Gaps, Positions, SaturateAll;
      var c1 := cumul + Saturate(p[0] - last);
      FirstSaturated(p, last, cumul);
      SaturatedIncreasing(p[1..], p[0], c1);
      assert |p| > 1 ==> p[0] < p[1..][0];
      IncreasingCons(c1, Positions(SaturateAll(Gaps(p[1..], p[0])), c1));
    }
  }

  lemma IncreasingCons(x: nat, q: seq<nat>)
    requires Increasing(q) && forall i | 0 <= i < |q| :: x < q[i]
    ensures Increasing([x] + q)
  {
  }

  /** The other way round: a canonical stream is what encoding its own decoding gives. */
  lemma StreamRoundTrip(n: nat, p: seq<nat>)
    requires 16 * n < U32 && Increasing(p) && forall i | 0 <= i < |p| :: p[i] < 16 * n
    requires Encodable(Gaps(p, 0))
    ensures var data := EncodeGaps(Gaps(p, 0));
            && FitsTrack(data, |p|, n)
            && Pulses(SetPulses(Blank(n), Positions(DecodeGaps(data, 0, |p|).value, 0)), 0) == p
  {
    hide SetPulses, Pulses, Pulse, EncodeGaps, DecodeGaps, Gaps, Positions, Increasing;
    var gaps := Gaps(p, 0);
    GapsCode(EncodeGaps(gaps), 0, gaps);
    assert SaturateAll(gaps) == gaps;
    PositionsOfGaps(p, 0);
    FindsPulses(n, p);
  }
}
