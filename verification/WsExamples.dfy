/** The examples of section 5.7 of RFC 6455, byte by byte. */
module WsExamples {
  import opened Bytes
  import opened WsFrames
  import opened WebSocket
  import opened WsServer
  import opened ToyWs
  import Utf8

  /** "Hello". */
  const HELLO: seq<byte> := [0x48, 0x65, 0x6C, 0x6C, 0x6F]

  const MASK: seq<byte> := [0x37, 0xFA, 0x21, 0x3D]
  const UNDER_MASK: seq<byte> := [0x7F, 0x9F, 0x4D, 0x51, 0x58]

  lemma OneBit(a: nat, b: nat, n: nat, i: nat, j: nat)
    requires i < 2 && j < 2
    ensures XorBits(2 * a + i, 2 * b + j, n + 1) == 2 * XorBits(a, b, n) + if i != j then 1 else 0
  {
  }

  /** Four more bits, from the most significant one. */
  lemma FourBits(a: nat, b: nat, i3: nat, i2: nat, i1: nat, i0: nat, j3: nat, j2: nat, j1: nat, j0: nat, n: nat)
    requires i0 < 2 && i1 < 2 && i2 < 2 && i3 < 2 && j0 < 2 && j1 < 2 && j2 < 2 && j3 < 2
    ensures XorBits(16 * a + 8 * i3 + 4 * i2 + 2 * i1 + i0, 16 * b + 8 * j3 + 4 * j2 + 2 * j1 + j0, n + 4)
            == 16 * XorBits(a, b, n) + (if i3 != j3 then 8 else 0) + (if i2 != j2 then 4 else 0)
               + (if i1 != j1 then 2 else 0) + (if i0 != j0 then 1 else 0)
  {
    hide XorBits;
    OneBit(a, b, n, i3, j3);
    OneBit(2 * a + i3, 2 * b + j3, n + 1, i2, j2);
    OneBit(4 * a + 2 * i3 + i2, 4 * b + 2 * j3 + j2, n + 2, i1, j1);
    OneBit(8 * a + 4 * i3 + 2 * i2 + i1, 8 * b + 4 * j3 + 2 * j2 + j1, n + 3, i0, j0);
  }

  lemma NoBits()
    ensures XorBits(0, 0, 0) == 0
  {
  }

  lemma HelloBytes()
    ensures Xor(0x7F, 0x37) == 0x48 && Xor(0x9F, 0xFA) == 0x65 && Xor(0x4D, 0x21) == 0x6C
    ensures Xor(0x51, 0x3D) == 0x6C && Xor(0x58, 0x37) == 0x6F
  {
    hide XorBits;
    NoBits();
    FourBits(0, 0, 0, 1, 1, 1, 0, 0, 1, 1, 0);
    FourBits(7, 3, 1, 1, 1, 1, 0, 1, 1, 1, 4);
    FourBits(0, 0, 1, 0, 0, 1, 1, 1, 1, 1, 0);
    FourBits(9, 15, 1, 1, 1, 1, 1, 0, 1, 0, 4);
    FourBits(0, 0, 0, 1, 0, 0, 0, 0, 1, 0, 0);
    FourBits(4, 2, 1, 1, 0, 1, 0, 0, 0, 1, 4);
    FourBits(0, 0, 0, 1, 0, 1, 0, 0, 1, 1, 0);
    FourBits(5, 3, 0, 0, 0, 1, 1, 1, 0, 1, 4);
    FourBits(0, 0, 0, 1, 0, 1, 0, 0, 1, 1, 0);
    FourBits(5, 3, 1, 0, 0, 0, 0, 1, 1, 1, 4);
  }

  /** Five bytes under a mask. */
  lemma MaskedFive(p: seq<byte>, mask: seq<byte>)
    requires |p| == 5 && |mask| == 4
    ensures Masked(p, mask)
            == [Xor(p[0], mask[0]), Xor(p[1], mask[1]), Xor(p[2], mask[2]), Xor(p[3], mask[3]), Xor(p[4], mask[0])]
  {
    hide Xor;
  }

  lemma HelloUnderMask()
    ensures Masked(UNDER_MASK, MASK) == HELLO
  {
    hide Xor, Masked;
    HelloBytes();
    MaskedFive(UNDER_MASK, MASK);
  }

  /** A masked frame with a payload of five bytes under the mask. */
  lemma HelloFrame(first: byte, rest: seq<byte>)
    ensures ParseFrame([first, 0x85] + (MASK + UNDER_MASK) + rest)
            == Some(Parsed(Frame(first / 0x80 == 1, first / 0x10 % 8, first % 0x10, true, Short, MASK, HELLO), rest))
  {
    hide Masked;
    HelloUnderMask();
    var s := [first, 0x85] + (MASK + UNDER_MASK) + rest;
    var t := s[2..];
    assert s[0] == first && s[1] == 0x85 && t == (MASK + UNDER_MASK) + rest;
    assert t[0..] == t && t[..4] == MASK && t[4..9] == UNDER_MASK && t[9..] == rest;
    assert ReadLength(0x85 % 0x80, t) == Some(Length(5, Short, 0));
    assert ReadPayload(t, 5) == Some(HELLO);
  }

  lemma HelloIsText()
    ensures Utf8.StateAfter(Utf8.ACCEPT, HELLO) == Utf8.ACCEPT
  {
    AsciiOctets(HELLO);
    Utf8.AcceptsExactly(Utf8.ACCEPT, HELLO);
  }

  lemma {:induction false} AsciiOctets(s: seq<byte>)
    requires forall i | 0 <= i < |s| :: s[i] < 0x80
    ensures Utf8.Octets(s)
    decreases |s|
  {
    if s != [] {
      AsciiOctets(s[1..]);
    }
  }

  lemma FirstMore(s: seq<byte>, f: Frame, rest: seq<byte>, q: Progress)
    requires ParseFrame(s) == Some(Parsed(f, rest)) && AfterFrame(f, START, false) == More(q)
    ensures Receive(s, START, false) == Receive(rest, q, false)
  {
    hide AfterFrame;
  }

  lemma FirstDone(s: seq<byte>, f: Frame, rest: seq<byte>, kind: int, payload: seq<byte>, replies: seq<Reply>)
    requires ParseFrame(s) == Some(Parsed(f, rest)) && AfterFrame(f, START, false) == Done(kind, payload, replies)
    ensures Receive(s, START, false) == Message(kind, payload, rest, replies)
  {
    hide AfterFrame;
  }

  lemma FirstFailed(s: seq<byte>, f: Frame, rest: seq<byte>, replies: seq<Reply>)
    requires ParseFrame(s) == Some(Parsed(f, rest)) && AfterFrame(f, START, false) == Failed(replies)
    ensures Receive(s, START, false) == Failure(replies)
  {
    hide AfterFrame;
  }

  /** A frame with FIN and "Hello" under the mask. */
  function Hello(opcode: nat): Frame
  {
    Frame(true, 0, opcode, true, Short, MASK, HELLO)
  }

  lemma HelloParsed(opcode: nat, rest: seq<byte>)
    requires opcode < 16
    ensures ParseFrame([0x80 + opcode, 0x85, 0x37, 0xFA, 0x21, 0x3D, 0x7F, 0x9F, 0x4D, 0x51, 0x58] + rest)
            == Some(Parsed(Hello(opcode), rest))
  {
    hide ParseFrame;
    HelloFrame(0x80 + opcode, rest);
    assert [0x80 + opcode, 0x85] + (MASK + UNDER_MASK) + rest
           == [0x80 + opcode, 0x85, 0x37, 0xFA, 0x21, 0x3D, 0x7F, 0x9F, 0x4D, 0x51, 0x58] + rest;
  }

  lemma TextDone()
    ensures AfterFrame(Hello(1), START, false) == Done(1, HELLO, [])
  {
    HelloIsText();
    hide Utf8.StateAfter;
    assert [] + HELLO == HELLO;
  }

  /** A single-frame masked text message. */
  lemma MaskedText(rest: seq<byte>)
    ensures Receive([0x81, 0x85, 0x37, 0xFA, 0x21, 0x3D, 0x7F, 0x9F, 0x4D, 0x51, 0x58] + rest, START, false)
            == Message(1, HELLO, rest, [])
  {
    hide ParseFrame, Receive, AfterFrame;
    TextDone();
    HelloParsed(1, rest);
    FirstDone([0x81, 0x85, 0x37, 0xFA, 0x21, 0x3D, 0x7F, 0x9F, 0x4D, 0x51, 0x58] + rest, Hello(1), rest, 1, HELLO, []);
  }

  /** A masked ping is answered with a pong that carries its payload. */
  lemma MaskedPing(rest: seq<byte>)
    ensures Receive([0x89, 0x85, 0x37, 0xFA, 0x21, 0x3D, 0x7F, 0x9F, 0x4D, 0x51, 0x58] + rest, START, false)
            == Receive(rest, START.(replies := [Pong(HELLO)]), false)
  {
    assert [] + [Pong(HELLO)] == [Pong(HELLO)];
    assert AfterFrame(Hello(9), START, false) == More(START.(replies := [Pong(HELLO)]));
    HelloParsed(9, rest);
    hide ParseFrame, Receive, AfterFrame;
    FirstMore([0x89, 0x85, 0x37, 0xFA, 0x21, 0x3D, 0x7F, 0x9F, 0x4D, 0x51, 0x58] + rest, Hello(9), rest,
              START.(replies := [Pong(HELLO)]));
  }

  /** A masked pong is passed over. */
  lemma MaskedPong(rest: seq<byte>)
    ensures Receive([0x8A, 0x85, 0x37, 0xFA, 0x21, 0x3D, 0x7F, 0x9F, 0x4D, 0x51, 0x58] + rest, START, false)
            == Receive(rest, START, false)
  {
    assert AfterFrame(Hello(10), START, false) == More(START);
    HelloParsed(10, rest);
    hide ParseFrame, Receive, AfterFrame;
    FirstMore([0x8A, 0x85, 0x37, 0xFA, 0x21, 0x3D, 0x7F, 0x9F, 0x4D, 0x51, 0x58] + rest, Hello(10), rest, START);
  }

  lemma ServerText()
    ensures ServerFrame(1, HELLO) == [0x81, 0x05, 0x48, 0x65, 0x6C, 0x6C, 0x6F]
    ensures ServerFrame(9, HELLO) == [0x89, 0x05, 0x48, 0x65, 0x6C, 0x6C, 0x6F]
  {
  }

  /** Lengths of 256 bytes and of 64 KiB. */
  lemma ServerBinary(payload: seq<byte>)
    ensures |payload| == 0x100 ==> ServerFrame(2, payload) == [0x82, 0x7E, 0x01, 0x00] + payload
    ensures |payload| == 0x1_0000 ==>
              ServerFrame(2, payload) == [0x82, 0x7F, 0, 0, 0, 0, 0, 1, 0, 0] + payload
  {
  }

  /** The same text from the client, which masks with 0xAA throughout. */
  lemma ClientText()
    ensures EncodeFrame(ClientFrame(1, HELLO)) == [0x81, 0x85, 0xAA, 0xAA, 0xAA, 0xAA, 0xE2, 0xCF, 0xC6, 0xC6, 0xC5]
  {
    hide Masked;
    ClientMasked();
    var f := ClientFrame(1, HELLO);
    assert LengthBytes(f.form, |f.payload|) == [];
    assert FirstByte(f.fin, f.rsv, f.opcode) == 0x81 && SecondByte(f.maskBit, f.form, |f.payload|) == 0x85;
  }

  lemma ClientMasked()
    ensures Masked(HELLO, MASKS) == [0xE2, 0xCF, 0xC6, 0xC6, 0xC5]
  {
    hide Xor, Masked;
    ClientBytes();
    MaskedFive(HELLO, MASKS);
  }

  lemma ClientBytes()
    ensures Xor(0x48, 0xAA) == 0xE2 && Xor(0x65, 0xAA) == 0xCF && Xor(0x6C, 0xAA) == 0xC6 && Xor(0x6F, 0xAA) == 0xC5
  {
    hide XorBits;
    NoBits();
    FourBits(0, 0, 0, 1, 0, 0, 1, 0, 1, 0, 0);
    FourBits(4, 10, 1, 0, 0, 0, 1, 0, 1, 0, 4);
    FourBits(0, 0, 0, 1, 1, 0, 1, 0, 1, 0, 0);
    FourBits(6, 10, 0, 1, 0, 1, 1, 0, 1, 0, 4);
    FourBits(0, 0, 0, 1, 1, 0, 1, 0, 1, 0, 0);
    FourBits(6, 10, 1, 1, 0, 0, 1, 0, 1, 0, 4);
    FourBits(0, 0, 0, 1, 1, 0, 1, 0, 1, 0, 0);
    FourBits(6, 10, 1, 1, 1, 1, 1, 0, 1, 0, 4);
  }

  /** Text that is not valid is answered with close code 1007 of section 7.4.1 of RFC 6455. */
  lemma InvalidText(rest: seq<byte>)
    ensures Receive([0x81, 0x81, 0, 0, 0, 0, 0xFF] + rest, START, false) == Failure([Close(1007)])
  {
    hide ParseFrame, Receive, AfterFrame;
    var f := Frame(true, 0, 1, true, Short, [0, 0, 0, 0], [0xFF]);
    InvalidFails(f);
    OneByteFrame(0x81, rest);
    FirstFailed([0x81, 0x81, 0, 0, 0, 0, 0xFF] + rest, f, rest, [Close(1007)]);
  }

  lemma InvalidFails(f: Frame)
    requires f.fin && f.rsv == 0 && f.opcode == 1 && f.payload == [0xFF]
    ensures AfterFrame(f, START, false) == Failed([Close(1007)])
  {
    NotText();
    hide Utf8.StateAfter;
    assert [] + [0xFF] == [0xFF] && [] + [Close(1007)] == [Close(1007)];
  }

  lemma NotText()
    ensures Utf8.StateAfter(Utf8.ACCEPT, [0xFF]) != Utf8.ACCEPT
  {
    Utf8.AcceptsExactly(Utf8.ACCEPT, [0xFF]);
  }

  lemma OneByteFrame(first: byte, rest: seq<byte>)
    ensures ParseFrame([first, 0x81, 0, 0, 0, 0, 0xFF] + rest)
            == Some(Parsed(Frame(first / 0x80 == 1, first / 0x10 % 8, first % 0x10, true, Short, [0, 0, 0, 0], [0xFF]),
                           rest))
  {
    hide Xor;
    ZeroMask();
    var s := [first, 0x81, 0, 0, 0, 0, 0xFF] + rest;
    var t := s[2..];
    assert t == [0, 0, 0, 0, 0xFF] + rest && t[0..] == t;
    assert t[..4] == [0, 0, 0, 0] && t[4..5] == [0xFF] && t[5..] == rest;
    assert Masked([0xFF], [0, 0, 0, 0]) == [0xFF];
    assert ReadLength(0x81 % 0x80, t) == Some(Length(1, Short, 0));
    assert ReadPayload(t, 1) == Some([0xFF]);
  }

  lemma ZeroMask()
    ensures Xor(0xFF, 0) == 0xFF
  {
    hide XorBits;
    NoBits();
    FourBits(0, 0, 1, 1, 1, 1, 0, 0, 0, 0, 0);
    FourBits(15, 0, 1, 1, 1, 1, 0, 0, 0, 0, 4);
  }
}
