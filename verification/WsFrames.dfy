/** The frames of section 5.2 of RFC 6455: their bytes, and reading them back. */
module WsFrames {
  import opened Bits
  import opened Bytes

  const CONT := 0
  const TXT := 1
  const BIN := 2
  const CLSE := 8
  const PING := 9
  const PONG := 10

  predicate IsControl(opcode: nat)
  {
    opcode == CLSE || opcode == PING || opcode == PONG
  }

  // ----- masking -----

  /** The exclusive or of the n lowest bits. */
  function XorBits(a: nat, b: nat, n: nat): nat
  {
    if n == 0 then 0 else 2 * XorBits(a / 2, b / 2, n - 1) + if a % 2 != b % 2 then 1 else 0
  }

  lemma {:induction false} XorBitsTwice(a: nat, b: nat, n: nat)
    requires a < Pow2(n)
    ensures XorBits(a, b, n) < Pow2(n) && XorBits(XorBits(a, b, n), b, n) == a
  {
    if n > 0 {
      XorBitsTwice(a / 2, b / 2, n - 1);
      var x := XorBits(a, b, n);
      assert x / 2 == XorBits(a / 2, b / 2, n - 1);
    }
  }

  function Xor(a: byte, b: byte): (r: byte)
    ensures XorBits(r, b, 8) == a
  {
    Pow2Values();
    XorBitsTwice(a, b, 8);
    XorBits(a, b, 8)
  }

  lemma {:induction false} XorBit(a: nat, b: nat, n: nat, k: nat)
    requires k < n
    ensures BitAt(XorBits(a, b, n), k) <==> BitAt(a, k) != BitAt(b, k)
  {
    var x := XorBits(a, b, n);
    assert x / 2 == XorBits(a / 2, b / 2, n - 1) && (x % 2 == 1 <==> a % 2 != b % 2);
    if k > 0 {
      XorBit(a / 2, b / 2, n - 1, k - 1);
    }
  }

  /** The exclusive or, bit by bit; no other byte has these bits. */
  lemma XorExactly(a: byte, b: byte, r: byte)
    ensures forall k: nat | k < 8 :: BitAt(Xor(a, b), k) <==> BitAt(a, k) != BitAt(b, k)
    ensures (forall k: nat | k < 8 :: BitAt(r, k) <==> BitAt(a, k) != BitAt(b, k)) ==> r == Xor(a, b)
  {
    hide BitAt, XorBits, Pow2;
    var x := Xor(a, b);
    forall k: nat | k < 8
      ensures BitAt(x, k) <==> BitAt(a, k) != BitAt(b, k)
    {
      XorBit(a, b, 8, k);
    }
    if forall k: nat | k < 8 :: BitAt(r, k) <==> BitAt(a, k) != BitAt(b, k) {
      Pow2Values();
      SameBits(r, x, 8);
    }
  }

  /** A payload under a mask of four bytes. */
  function Masked(p: seq<byte>, mask: seq<byte>): (m: seq<byte>)
    requires |mask| == 4
    ensures |m| == |p|
  {
    seq(|p|, i requires 0 <= i < |p| => Xor(p[i], mask[i % 4]))
  }

  /** Byte i is changed in the bits of mask byte i % 4, as section 5.3 of RFC 6455 asks. */
  lemma MaskedBits(p: seq<byte>, mask: seq<byte>, i: nat, k: nat)
    requires |mask| == 4 && i < |p| && k < 8
    ensures BitAt(Masked(p, mask)[i], k) <==> BitAt(p[i], k) != BitAt(mask[i % 4], k)
  {
    hide BitAt, Xor;
    XorExactly(p[i], mask[i % 4], Xor(p[i], mask[i % 4]));
  }

  lemma MaskedTwice(p: seq<byte>, mask: seq<byte>)
    requires |mask| == 4
    ensures Masked(Masked(p, mask), mask) == p
  {
    hide XorBits;
    forall i | 0 <= i < |p|
      ensures Masked(Masked(p, mask), mask)[i] == p[i]
    {
      XorTwice(p[i], mask[i % 4]);
    }
  }

  lemma XorTwice(a: byte, b: byte)
    ensures Xor(Xor(a, b), b) == a
  {
    hide XorBits;
  }

  // ----- numbers in network byte order -----

  function BigEndian(s: seq<byte>): nat
  {
    if s == [] then 0 else BigEndian(s[..|s| - 1]) * 0x100 + s[|s| - 1]
  }

  function BigEndianBytes(n: nat, k: nat): (s: seq<byte>)
    ensures |s| == k
  {
    if k == 0 then [] else BigEndianBytes(n / 0x100, k - 1) + [n % 0x100]
  }

  /** The numbers that fit k bytes. */
  function Range(k: nat): (r: nat)
    ensures r > 0
  {
    if k == 0 then 1 else 0x100 * Range(k - 1)
  }

  lemma {:induction false} BytesOfNumber(n: nat, k: nat)
    requires n < Range(k)
    ensures BigEndian(BigEndianBytes(n, k)) == n
    decreases k
  {
    if k > 0 {
      BytesOfNumber(n / 0x100, k - 1);
      assert BigEndianBytes(n, k)[..k - 1] == BigEndianBytes(n / 0x100, k - 1);
    }
  }

  lemma {:induction false} NumberOfBytes(s: seq<byte>)
    ensures BigEndian(s) < Range(|s|) && BigEndianBytes(BigEndian(s), |s|) == s
    decreases |s|
  {
    if s != [] {
      NumberOfBytes(s[..|s| - 1]);
    }
  }

  // ----- frames -----

  /** A payload length stands in the second byte, in two bytes behind it or in eight. */
  datatype LengthForm = Short | Medium | Long

  datatype Frame = Frame(fin: bool, rsv: nat, opcode: nat, maskBit: bool, form: LengthForm, mask: seq<byte>,
                         payload: seq<byte>)

  predicate FitsForm(form: LengthForm, length: nat)
  {
    match form
    case Short => length <= 125
    case Medium => length < Range(2)
    case Long => length < Range(8)
  }

  predicate WellFormed(f: Frame)
  {
    f.rsv < 8 && f.opcode < 16 && |f.mask| == 4 && FitsForm(f.form, |f.payload|)
  }

  function FirstByte(fin: bool, rsv: nat, opcode: nat): byte
    requires rsv < 8 && opcode < 16
  {
    (if fin then 0x80 else 0) + rsv * 0x10 + opcode
  }

  /** The low seven bits of the second byte. */
  function Length7(form: LengthForm, length: nat): (r: nat)
    requires FitsForm(form, length)
    ensures r < 0x80
  {
    match form
    case Short => length
    case Medium => 126
    case Long => 127
  }

  function SecondByte(maskBit: bool, form: LengthForm, length: nat): byte
    requires FitsForm(form, length)
  {
    (if maskBit then 0x80 else 0) + Length7(form, length)
  }

  function LengthBytes(form: LengthForm, length: nat): seq<byte>
    requires FitsForm(form, length)
  {
    match form
    case Short => []
    case Medium => BigEndianBytes(length, 2)
    case Long => BigEndianBytes(length, 8)
  }

  /** A frame of a client; the mask is there whatever the mask bit says. */
  function EncodeFrame(f: Frame): (s: seq<byte>)
    requires WellFormed(f)
    ensures |s| >= 6
  {
    [FirstByte(f.fin, f.rsv, f.opcode), SecondByte(f.maskBit, f.form, |f.payload|)]
    + (LengthBytes(f.form, |f.payload|) + (f.mask + Masked(f.payload, f.mask)))
  }

  datatype Length = Length(value: nat, form: LengthForm, size: nat)

  /** The payload length, from the low bits of the second byte and the bytes behind it. */
  function ReadLength(length7: nat, s: seq<byte>): (r: Option<Length>)
    requires length7 < 0x80
    ensures r.Some? ==> r.value.size <= |s|
  {
    if length7 == 126 then if |s| < 2 then None else Some(Length(BigEndian(s[..2]), Medium, 2))
    else if length7 == 127 then if |s| < 8 then None else Some(Length(BigEndian(s[..8]), Long, 8))
    else Some(Length(length7, Short, 0))
  }

  datatype Parsed = Parsed(frame: Frame, rest: seq<byte>)

  /** Mask and payload of a frame. */
  function ReadPayload(t: seq<byte>, length: nat): (r: Option<seq<byte>>)
    ensures r.Some? ==> |t| >= 4 + length && |r.value| == length
  {
    if |t| < 4 + length then None else Some(Masked(t[4..4 + length], t[..4]))
  }

  /** The frame at the front of a stream, if it is complete. */
  function ParseFrame(s: seq<byte>): (r: Option<Parsed>)
    ensures r.Some? ==> |r.value.rest| < |s|
  {
    if |s| < 2 then None
    else
      var length := ReadLength(s[1] % 0x80, s[2..]);
      if length.None? then None
      else
        var t := s[2..][length.value.size..];
        var n := length.value.value;
        var payload := ReadPayload(t, n);
        if payload.None? then None
        else
          Some(Parsed(Frame(s[0] / 0x80 == 1, s[0] / 0x10 % 8, s[0] % 0x10, s[1] / 0x80 == 1, length.value.form, t[..4],
                            payload.value),
                      t[4 + n..]))
  }

  lemma LengthReads(form: LengthForm, length: nat, rest: seq<byte>)
    requires FitsForm(form, length)
    ensures ReadLength(Length7(form, length), LengthBytes(form, length) + rest)
            == Some(Length(length, form, |LengthBytes(form, length)|))
  {
    hide BigEndian, BigEndianBytes, Range;
    var b := LengthBytes(form, length);
    assert (b + rest)[..|b|] == b;
    if form == Medium {
      BytesOfNumber(length, 2);
    } else if form == Long {
      BytesOfNumber(length, 8);
    }
  }

  lemma PayloadReads(mask: seq<byte>, payload: seq<byte>, rest: seq<byte>)
    requires |mask| == 4
    ensures ReadPayload((mask + Masked(payload, mask)) + rest, |payload|) == Some(payload)
  {
    hide Xor;
    var t := (mask + Masked(payload, mask)) + rest;
    assert t[..4] == mask && t[4..4 + |payload|] == Masked(payload, mask);
    MaskedTwice(payload, mask);
  }

  /** Reading the bytes of a frame gives the frame. */
  lemma FrameReads(f: Frame, rest: seq<byte>)
    requires WellFormed(f)
    ensures ParseFrame(EncodeFrame(f) + rest) == Some(Parsed(f, rest))
  {
    hide Masked, LengthBytes, ReadLength, ReadPayload, FitsForm;
    var s, l, m := EncodeFrame(f) + rest, LengthBytes(f.form, |f.payload|), f.mask + Masked(f.payload, f.mask);
    assert s[2..] == l + (m + rest);
    assert s[2..][|l|..] == m + rest;
    LengthReads(f.form, |f.payload|, m + rest);
    PayloadReads(f.mask, f.payload, rest);
    assert (m + rest)[..4] == f.mask && (m + rest)[4 + |f.payload|..] == rest;
    HeaderBytes(f.fin, f.rsv, f.opcode);
    SecondByteOf(f.maskBit, f.form, |f.payload|);
  }

  lemma HeaderBytes(fin: bool, rsv: nat, opcode: nat)
    requires rsv < 8 && opcode < 16
    ensures var b := FirstByte(fin, rsv, opcode); (b / 0x80 == 1 <==> fin) && b / 0x10 % 8 == rsv && b % 0x10 == opcode
  {
    var b, high := FirstByte(fin, rsv, opcode), (if fin then 8 else 0) + rsv;
    assert b == 0x10 * high + opcode;
    assert b / 0x10 == high && b % 0x10 == opcode;
    assert b / 0x80 == high / 8;
  }

  lemma SecondByteOf(maskBit: bool, form: LengthForm, length: nat)
    requires FitsForm(form, length)
    ensures var b := SecondByte(maskBit, form, length);
            b % 0x80 == Length7(form, length) && (b / 0x80 == 1 <==> maskBit)
  {
    hide FitsForm;
  }

  lemma LengthIs(length7: nat, s: seq<byte>)
    requires length7 < 0x80 && ReadLength(length7, s).Some?
    ensures var l := ReadLength(length7, s).value;
            && FitsForm(l.form, l.value) && Length7(l.form, l.value) == length7
            && LengthBytes(l.form, l.value) == s[..l.size]
  {
    hide BigEndian, BigEndianBytes, Range;
    if length7 == 126 {
      NumberOfBytes(s[..2]);
    } else if length7 == 127 {
      NumberOfBytes(s[..8]);
    }
  }

  lemma PayloadIs(t: seq<byte>, n: nat)
    requires ReadPayload(t, n).Some?
    ensures t == (t[..4] + Masked(ReadPayload(t, n).value, t[..4])) + t[4 + n..]
  {
    hide Xor;
    MaskedTwice(t[4..4 + n], t[..4]);
  }

  lemma Reassociate(s: seq<byte>, a: seq<byte>, b: seq<byte>, rest: seq<byte>)
    requires |s| >= 2 && s[2..] == a + (b + rest)
    ensures s == ([s[0], s[1]] + (a + b)) + rest
  {
    assert s == [s[0], s[1]] + s[2..];
  }

  /** And what is read as a frame is the bytes of that frame. */
  lemma FrameIs(s: seq<byte>)
    requires ParseFrame(s).Some?
    ensures WellFormed(ParseFrame(s).value.frame)
    ensures s == EncodeFrame(ParseFrame(s).value.frame) + ParseFrame(s).value.rest
  {
    hide Masked, LengthBytes, ReadLength, FitsForm, Length7, ReadPayload;
    var f, rest := ParseFrame(s).value.frame, ParseFrame(s).value.rest;
    LengthIs(s[1] % 0x80, s[2..]);
    var l := ReadLength(s[1] % 0x80, s[2..]).value;
    var t := s[2..][l.size..];
    PayloadIs(t, l.value);
    assert s[2..] == s[2..][..l.size] + t;
    Reassociate(s, LengthBytes(f.form, |f.payload|), f.mask + Masked(f.payload, f.mask), rest);
    assert s[0] == FirstByte(f.fin, f.rsv, f.opcode);
    assert s[1] == SecondByte(f.maskBit, f.form, |f.payload|);
  }
}
