/** How sequences are written, and what it means for the bytes written so far to stand for a prefix of the input. */
module Lz4Blocks {
  import opened Bytes
  import opened Lz4Format

  /** The four bits of a length that go into the token. */
  function Nibble(n: nat): (r: nat)
    ensures r < 16
  {
    if n < 15 then n else 15
  }

  function Extension(n: nat): (r: seq<byte>)
  {
    if n < 255 then [n] else [255] + Extension(n - 255)
  }

  /** The bytes of a length that do not fit the token. */
  function LengthField(n: nat): seq<byte>
  {
    if n < 15 then [] else Extension(n - 15)
  }

  function EncodeSequence(literals: seq<byte>, offset: uint16, length: nat): seq<byte>
    requires length >= MINMATCH
  {
    [16 * Nibble(|literals|) + Nibble(length - MINMATCH)] + LengthField(|literals|) + literals
    + [offset % 256, offset / 256] + LengthField(length - MINMATCH)
  }

  function EncodeLast(literals: seq<byte>): seq<byte>
  {
    [16 * Nibble(|literals|)] + LengthField(|literals|) + literals
  }

  // ----- what is written is what is read -----

  lemma {:induction false} ExtensionShape(n: nat)
    ensures |Extension(n)| == n / 255 + 1
    ensures forall i | 0 <= i < n / 255 :: Extension(n)[i] == 255
    ensures Extension(n)[n / 255] == n % 255
  {
    if n >= 255 {
      ExtensionShape(n - 255);
      assert n / 255 == (n - 255) / 255 + 1;
    }
  }

  lemma {:induction false} ExtensionReads(src: seq<byte>, ip: nat, n: nat)
    requires At(src, ip, Extension(n))
    ensures ReadRun(src, ip) == Some(Run(n, ip + |Extension(n)|))
    decreases n
  {
    assert Extension(n)[0] == src[ip];
    if n >= 255 {
      AtParts(src, ip, [255], Extension(n - 255));
      ExtensionReads(src, ip + 1, n - 255);
    }
  }

  lemma FieldReads(src: seq<byte>, ip: nat, n: nat)
    requires At(src, ip, LengthField(n))
    ensures Field(src, Nibble(n), ip) == Some(Run(n, ip + |LengthField(n)|))
  {
    if n >= 15 {
      ExtensionReads(src, ip, n - 15);
    }
  }

  /** A token, its literal length and the literals are read back. */
  lemma LiteralsRead(src: seq<byte>, ip: nat, low: nat, literals: seq<byte>)
    requires low < 16 && At(src, ip, [16 * Nibble(|literals|) + low] + LengthField(|literals|) + literals)
    ensures var at := ip + 1 + |LengthField(|literals|)| + |literals|;
            && at <= |src|
            && src[ip] % 16 == low
            && Literals(src, ip) == Some(Run(|literals|, at - |literals|))
            && src[at - |literals|..at] == literals
  {
    var t: seq<byte>, f := [16 * Nibble(|literals|) + low], LengthField(|literals|);
    AtParts(src, ip, t + f, literals);
    AtParts(src, ip, t, f);
    assert t[0] == src[ip];
    FieldReads(src, ip + 1, |literals|);
  }

  lemma LastReads(src: seq<byte>, ip: nat, literals: seq<byte>, out: seq<byte>)
    requires At(src, ip, EncodeLast(literals)) && |src| == ip + |EncodeLast(literals)|
    ensures DecodeSequence(src, ip, out) == Last(out + literals)
    ensures forall pos: nat, total: nat ::
              Conforms(src, ip, pos, total) <==> pos + |literals| == total && (pos > 0 ==> |literals| >= LASTLITERALS)
  {
    LiteralsRead(src, ip, 0, literals);
  }

  lemma SequenceReads(src: seq<byte>, ip: nat, literals: seq<byte>, offset: uint16, length: nat)
    requires length >= MINMATCH
    requires At(src, ip, EncodeSequence(literals, offset, length))
    ensures var at := ip + 1 + |LengthField(|literals|)| + |literals|;
            && ip < at < |src|
            && Literals(src, ip) == Some(Run(|literals|, at - |literals|))
            && src[at - |literals|..at] == literals
            && Match(src, src[ip] % 16, at)
               == Some(Copy(offset, length, ip + |EncodeSequence(literals, offset, length)|))
  {
    hide LengthField, Field, Literals, Nibble;
    var f, g := LengthField(|literals|), LengthField(length - MINMATCH);
    var head: seq<byte> := [16 * Nibble(|literals|) + Nibble(length - MINMATCH)] + f + literals;
    var pair: seq<byte> := [offset % 256, offset / 256];
    AtParts(src, ip, head + pair, g);
    AtParts(src, ip, head, pair);
    LiteralsRead(src, ip, Nibble(length - MINMATCH), literals);
    var at := ip + |head|;
    assert pair[0] == src[at + 0] && pair[1] == src[at + 1];
    FieldReads(src, at + 2, length - MINMATCH);
    assert ReadLE16(src[at], src[at + 1]) == offset;
  }

  // ----- the meaning of a partly written block -----

  /** Reading src up to ip gives x, within the end-of-block restrictions for total. */
  ghost predicate ReadsUpTo(src: seq<byte>, ip: nat, x: seq<byte>, total: nat)
  {
    Conforms(src, ip, |x|, total) ==>
      && Conforms(src, 0, 0, total)
      && Decode(src, 0, []) == Decode(src, ip, x)
  }

  /** However the block goes on, reading what is written so far gives x. */
  ghost predicate StandsFor(written: seq<byte>, x: seq<byte>, total: nat)
  {
    forall tail: seq<byte> :: ReadsUpTo(written + tail, |written|, x, total)
  }

  lemma EmptyStandsForEmpty(total: nat)
    ensures StandsFor([], [], total)
  {
  }

  /** Wherever the bytes of e stand, they take a decoder that has x to x1, within the restrictions for total. */
  ghost predicate Adds(e: seq<byte>, x: seq<byte>, x1: seq<byte>, total: nat)
  {
    forall src: seq<byte>, ip: nat :: At(src, ip, e) ==> StepsTo(src, ip, x, ip + |e|, x1, total)
  }

  ghost predicate StepsTo(src: seq<byte>, ip: nat, x: seq<byte>, next: nat, x1: seq<byte>, total: nat)
  {
    && DecodeSequence(src, ip, x) == Next(next, x1)
    && (Conforms(src, next, |x1|, total) ==> Conforms(src, ip, |x|, total))
  }

  lemma ReadsOneMore(src: seq<byte>, ip: nat, x: seq<byte>, next: nat, x1: seq<byte>, total: nat)
    requires ReadsUpTo(src, ip, x, total) && StepsTo(src, ip, x, next, x1, total)
    ensures ReadsUpTo(src, next, x1, total)
  {
  }

  lemma StandsForMore(written: seq<byte>, x: seq<byte>, e: seq<byte>, x1: seq<byte>, total: nat)
    requires StandsFor(written, x, total) && Adds(e, x, x1, total)
    ensures StandsFor(written + e, x1, total)
  {
    hide ReadsUpTo, StepsTo;
    forall tail: seq<byte>
      ensures ReadsUpTo((written + e) + tail, |written + e|, x1, total)
    {
      var src := (written + e) + tail;
      assert src == written + (e + tail);
      assert At(src, |written|, e);
      ReadsOneMore(src, |written|, x, |written| + |e|, x1, total);
    }
  }

  lemma SequenceAdds(x: seq<byte>, total: nat, literals: seq<byte>, offset: uint16, length: nat)
    requires length >= MINMATCH && 1 <= offset <= |x| + |literals|
    requires |x| + |literals| + MFLIMIT <= total && |x| + |literals| + length + LASTLITERALS <= total
    ensures Adds(EncodeSequence(literals, offset, length), x, CopyMatch(x + literals, offset, length), total)
  {
    hide EncodeSequence, CopyMatch, StepsTo, At;
    var e := EncodeSequence(literals, offset, length);
    forall src: seq<byte>, ip: nat | At(src, ip, e)
      ensures StepsTo(src, ip, x, ip + |e|, CopyMatch(x + literals, offset, length), total)
    {
      OneSequence(src, ip, x, total, literals, offset, length);
    }
  }

  lemma OneSequence(src: seq<byte>, ip: nat, x: seq<byte>, total: nat, literals: seq<byte>, offset: uint16, length: nat)
    requires length >= MINMATCH && 1 <= offset <= |x| + |literals|
    requires |x| + |literals| + MFLIMIT <= total && |x| + |literals| + length + LASTLITERALS <= total
    requires At(src, ip, EncodeSequence(literals, offset, length))
    ensures StepsTo(src, ip, x, ip + |EncodeSequence(literals, offset, length)|,
                    CopyMatch(x + literals, offset, length), total)
  {
    hide EncodeSequence, At, CopyMatch, Literals, Match, LengthField, DecodeSequence, Conforms;
    SequenceReads(src, ip, literals, offset, length);
    var at := ip + 1 + |LengthField(|literals|)| + |literals|;
    var c := Copy(offset, length, ip + |EncodeSequence(literals, offset, length)|);
    DecodesOver(src, ip, x, literals, at, c);
    if Conforms(src, c.next, |x| + |literals| + length, total) {
      ConformsOver(src, ip, |x|, total, |literals|, at, c);
    }
  }

  lemma DecodesOver(src: seq<byte>, ip: nat, x: seq<byte>, literals: seq<byte>, at: nat, c: Copy)
    requires ip < at < |src| && |literals| <= at && src[at - |literals|..at] == literals
    requires Literals(src, ip) == Some(Run(|literals|, at - |literals|))
    requires Match(src, src[ip] % 16, at) == Some(c)
    requires 1 <= c.offset <= |x| + |literals|
    ensures DecodeSequence(src, ip, x) == Next(c.next, CopyMatch(x + literals, c.offset, c.length))
  {
    hide Literals, Match, CopyMatch;
    var lit := Literals(src, ip).value;
    assert lit.next + lit.length == at;
    assert src[lit.next..at] == literals;
  }

  lemma ConformsOver(src: seq<byte>, ip: nat, pos: nat, total: nat, n: nat, at: nat, c: Copy)
    requires ip < at < |src| && n <= at
    requires Literals(src, ip) == Some(Run(n, at - n)) && Match(src, src[ip] % 16, at) == Some(c)
    requires 1 <= c.offset <= pos + n && pos + n + MFLIMIT <= total && pos + n + c.length + LASTLITERALS <= total
    requires Conforms(src, c.next, pos + n + c.length, total)
    ensures Conforms(src, ip, pos, total)
  {
  }

  lemma StandsForLast(written: seq<byte>, x: seq<byte>, total: nat, literals: seq<byte>)
    requires StandsFor(written, x, total)
    requires |x| + |literals| == total && (|x| > 0 ==> |literals| >= LASTLITERALS)
    ensures var block := written + EncodeLast(literals);
            Conforms(block, 0, 0, total) && Decode(block, 0, []) == Some(x + literals)
  {
    var block := written + EncodeLast(literals);
    assert ReadsUpTo(block, |written|, x, total);
    LastReads(block, |written|, literals, x);
  }
}
