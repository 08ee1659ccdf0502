/** The loops of the server that read frames from a socket and answer while they do, and how it sends frames. */
module WsServer {
  import opened Bytes
  import opened ByteReader
  import opened WsFrames
  import opened WebSocket
  import Utf8

  // ----- reading -----

  /** A number of k bytes; not to be used when the stream ends before. */
  method ReadBigEndian(wfd: Reader, k: nat) returns (n: int)
    requires wfd.Valid()
    modifies wfd, wfd.frm
    ensures wfd.Valid()
    ensures var s := old(wfd.Stream());
            && (k <= |s| ==> n == BigEndian(s[..k]) && wfd.Stream() == s[k..] && wfd.error == old(wfd.error))
            && (k > |s| ==> wfd.error)
  {
    n := 0;
    var i := 0;
    ghost var s := wfd.Stream();
    assert s[..0] == [] && s[0..] == s;
    while i < k
      invariant 0 <= i <= k && wfd.Valid()
      invariant i <= |s| ==> n == BigEndian(s[..i]) && wfd.Stream() == s[i..] && wfd.error == old(wfd.error)
      invariant i > |s| ==> wfd.error && wfd.Stream() == []
    {
      var b := wfd.NextByte();
      n := n * 0x100 + b;
      i := i + 1;
      if i <= |s| {
        assert s[..i][..i - 1] == s[..i - 1];
        assert s[i - 1..][1..] == s[i..];
      }
    }
  }

  /** The payload length behind the first two bytes. */
  method ReadLengthField(wfd: Reader, length7: nat) returns (length: int)
    requires wfd.Valid() && length7 < 0x80
    modifies wfd, wfd.frm
    ensures wfd.Valid()
    ensures var s := old(wfd.Stream());
            var l := ReadLength(length7, s);
            && (l.Some? ==> length == l.value.value && wfd.Stream() == s[l.value.size..] && wfd.error == old(wfd.error))
            && (l.None? ==> wfd.error)
  {
    length := length7;
    if length7 == 126 {
      length := ReadBigEndian(wfd, 2);
    } else if length7 == 127 {
      length := ReadBigEndian(wfd, 8);
    }
  }

  /** The four mask bytes; not to be used when the stream ends before. */
  method ReadMasks(wfd: Reader) returns (masks: seq<int>)
    requires wfd.Valid() && !wfd.error
    modifies wfd, wfd.frm
    ensures wfd.Valid() && |masks| == 4 && (wfd.error <==> |old(wfd.Stream())| < 4)
    ensures !wfd.error ==> masks == old(wfd.Stream())[..4] && wfd.Stream() == old(wfd.Stream())[4..]
  {
    ghost var t := wfd.Stream();
    var m0 := wfd.NextByte();
    ghost var t1 := wfd.Stream();
    var m1 := wfd.NextByte();
    ghost var t2 := wfd.Stream();
    var m2 := wfd.NextByte();
    ghost var t3 := wfd.Stream();
    var m3 := wfd.NextByte();
    masks := [m0, m1, m2, m3];
    if |t| >= 4 {
      assert t1 == t[1..] && t2 == t[2..] && t3 == t[3..] && wfd.Stream() == t[4..];
    } else {
      assert |t| == 0 || |t| == 1 || |t| == 2 || |t| == 3;
    }
  }

  lemma MaskedMore(t: seq<byte>, i: nat)
    requires 4 + i < |t|
    ensures Masked(t[4..4 + i + 1], t[..4]) == Masked(t[4..4 + i], t[..4]) + [Xor(t[4 + i], t[..4][i % 4])]
  {
    hide Xor;
    var a, b := t[4..4 + i], t[4..4 + i + 1];
    assert forall k | 0 <= k < i :: b[k] == t[4 + k] == a[k];
    assert b == a + [t[4 + i]];
  }

  /** Four mask bytes and the payload under them. */
  method ReadMasked(wfd: Reader, length: nat) returns (ok: bool, payload: seq<byte>)
    requires wfd.Valid() && !wfd.error
    modifies wfd, wfd.frm
    ensures wfd.Valid() && (wfd.error <==> !ok)
    ensures var t := old(wfd.Stream());
            && (ok <==> ReadPayload(t, length).Some?)
            && (ok ==> payload == ReadPayload(t, length).value && wfd.Stream() == t[4 + length..])
  {
    hide Xor, Masked;
    ghost var t := wfd.Stream();
    payload := [];
    var masks := ReadMasks(wfd);
    if wfd.error {
      return false, [];
    }
    var i := 0;
    assert Masked(t[4..4], t[..4]) == [];
    while i < length
      invariant 0 <= i <= length && wfd.Valid() && !wfd.error && 4 + i <= |t| && wfd.Stream() == t[4 + i..]
      invariant payload == Masked(t[4..4 + i], t[..4])
    {
      var b := wfd.NextByte();
      if b == -1 {
        return false, [];
      }
      MaskedMore(t, i);
      payload := payload + [Xor(b, masks[i % 4])];
      i := i + 1;
      assert t[4 + i - 1..][1..] == t[4 + i..];
    }
    ok := true;
  }

  /** Length, masks and payload of a frame, when size bytes of the message came before. */
  method ReadFrame(wfd: Reader, length7: nat, size: nat) returns (ok: bool, payload: seq<byte>)
    requires wfd.Valid() && !wfd.error && length7 < 0x80
    modifies wfd, wfd.frm
    ensures wfd.Valid() && (wfd.error <==> !ok)
    ensures var s := old(wfd.Stream());
            var l := ReadLength(length7, s);
            && (ok <==> l.Some? && size + l.value.value <= MAX_FRAME_LENGTH
                        && ReadPayload(s[l.value.size..], l.value.value).Some?)
            && (ok ==> payload == ReadPayload(s[l.value.size..], l.value.value).value
                       && wfd.Stream() == s[l.value.size..][4 + l.value.value..])
  {
    hide ReadLength, ReadPayload;
    var length := ReadLengthField(wfd, length7);
    if size + length > MAX_FRAME_LENGTH {
      wfd.error := true;
      return false, [];
    }
    if wfd.error {
      return false, [];
    }
    ok, payload := ReadMasked(wfd, length);
  }

  // ----- one message -----

  /** The frames with the first two bytes of s. */
  predicate Starts(f: Frame, s: seq<byte>)
  {
    && |s| >= 2 && f.fin == (s[0] / 0x80 == 1) && f.rsv == s[0] / 0x10 % 8 && f.opcode == s[0] % 0x10
    && (f.form == Short <==> s[1] % 0x80 <= 125)
  }

  lemma ParsedStarts(s: seq<byte>)
    requires ParseFrame(s).Some?
    ensures Starts(ParseFrame(s).value.frame, s)
  {
    hide ReadPayload;
  }

  /** What the receiver does with a frame that it refuses for its first byte or its first two. */
  lemma RefusedStart(s: seq<byte>, p: Progress, closing: bool)
    requires forall f: Frame :: Starts(f, s) ==> Refused(f, p.kind, closing)
    ensures Receive(s, p, closing) == Failure(p.replies)
  {
    hide ParseFrame;
    if ParseFrame(s).Some? {
      ParsedStarts(s);
    }
  }

  /** The checks of the first two bytes of a frame. */
  method ReadHeader(wfd: Reader, ghost p: Progress, kind: int, closing: bool)
    returns (ok: bool, fin: bool, opcode: nat, length7: nat)
    requires wfd.Valid() && !wfd.error && p.kind == kind
    modifies wfd, wfd.frm
    ensures wfd.Valid() && (wfd.error <==> !ok)
    ensures var s := old(wfd.Stream());
            && (!ok ==> Receive(s, p, closing) == Failure(p.replies))
            && (ok ==> |s| >= 2 && wfd.Stream() == s[2..] && fin == (s[0] / 0x80 == 1) && opcode == s[0] % 0x10
                       && length7 == s[1] % 0x80 && forall f: Frame :: Starts(f, s) ==> !Refused(f, kind, closing))
  {
    hide Receive;
    ghost var s := wfd.Stream();
    ok, fin, opcode, length7 := false, false, 0, 0;
    var first := wfd.NextByte();
    if first == -1 {
      RefusedStart(s, p, closing);
      return;
    }
    fin, opcode := first / 0x80 == 1, first % 0x10;
    if first / 0x10 % 8 != 0 {
      wfd.error := true;
      RefusedStart(s, p, closing);
      return;
    }
    if (kind == -1 && opcode == CONT) || (kind != -1 && !IsControl(opcode) && opcode != CONT) {
      wfd.error := true;
      RefusedStart(s, p, closing);
      return;
    }
    if !IsOpcode(opcode) || (closing && opcode != CLSE) {
      wfd.error := true;
      RefusedStart(s, p, closing);
      return;
    }
    var second := wfd.NextByte();
    length7 := second % 0x80;
    if wfd.error || (IsControl(opcode) && (!fin || length7 > 125)) {
      wfd.error := true;
      RefusedStart(s, p, closing);
      return;
    }
    ok := true;
    assert s[1..][1..] == s[2..];
  }

  /** What ReadFrame needs to find for a frame to be complete and not too long. */
  predicate Readable(s: seq<byte>, size: nat)
  {
    && |s| >= 2
    && var l := ReadLength(s[1] % 0x80, s[2..]);
       l.Some? && size + l.value.value <= MAX_FRAME_LENGTH && ReadPayload(s[2..][l.value.size..], l.value.value).Some?
  }

  /** A frame that ReadFrame cannot read fails the receiver. */
  lemma Unread(s: seq<byte>, p: Progress, closing: bool, size: nat)
    requires !Readable(s, size) && forall f: Frame :: Starts(f, s) ==> !Refused(f, p.kind, closing)
    requires |s| >= 2 && size == if IsControl(s[0] % 0x10) then 0 else |p.data|
    ensures Receive(s, p, closing) == Failure(p.replies)
  {
    if ParseFrame(s).Some? {
      ParsedStarts(s);
      hide ReadPayload;
    }
  }

  /** A frame that ReadFrame has read. */
  lemma Read(s: seq<byte>, p: Progress, closing: bool, size: nat)
    requires Readable(s, size) && forall f: Frame :: Starts(f, s) ==> !Refused(f, p.kind, closing)
    requires size == if IsControl(s[0] % 0x10) then 0 else |p.data|
    ensures ParseFrame(s).Some?
    ensures var l := ReadLength(s[1] % 0x80, s[2..]).value;
            var f, rest := ParseFrame(s).value.frame, ParseFrame(s).value.rest;
            && !Refused(f, p.kind, closing) && f.fin == (s[0] / 0x80 == 1) && f.opcode == s[0] % 0x10
            && f.payload == ReadPayload(s[2..][l.size..], l.value).value
            && rest == s[2..][l.size..][4 + l.value..]
            && (!IsControl(f.opcode) ==> |p.data| + |f.payload| <= MAX_FRAME_LENGTH)
            && var next := AfterFrame(f, p, closing);
               && (next.More? ==> Receive(s, p, closing) == Receive(rest, next.progress, closing))
               && (next.Done? ==> Receive(s, p, closing) == Message(next.kind, next.payload, rest, next.replies))
               && (next.Failed? ==> Receive(s, p, closing) == Failure(next.replies))
  {
    hide ReadPayload, AfterFrame, Refused;
    ParsedStarts(s);
  }

  /** The text check of a fragment: the state behind it, and whether the message is to be dropped. */
  method CheckText(utf8: Utf8State, payload: seq<byte>, fin: bool) returns (after: Utf8State, bad: bool)
    ensures after == Utf8.StateAfter(utf8, payload)
    ensures bad <==> if fin then after != Utf8.ACCEPT else after == Utf8.REJECT
  {
    hide Utf8.StateAfter;
    after := Utf8.IsUtf8LenState(payload, utf8);
    bad := if fin then after != Utf8.ACCEPT else after == Utf8.REJECT;
  }

  /** The reason in a close frame, if there is one, has to be text. */
  method CheckClose(payload: seq<byte>) returns (bad: bool)
    ensures bad <==> |payload| > 2 && Utf8.StateAfter(Utf8.ACCEPT, payload[2..]) != Utf8.ACCEPT
  {
    hide Utf8.StateAfter;
    bad := false;
    if |payload| > 2 {
      var state := Utf8.IsUtf8LenState(payload[2..], Utf8.ACCEPT);
      bad := state != Utf8.ACCEPT;
    }
  }

  /** What a frame that was read means for the message: a control frame is answered, a fragment is added. */
  method TakeFrame(p: Progress, fin: bool, opcode: nat, payload: seq<byte>, ghost f: Frame, ghost closing: bool)
    returns (next: Next)
    requires f.fin == fin && f.opcode == opcode && f.payload == payload && !Refused(f, p.kind, closing)
    requires !IsControl(opcode) ==> |p.data| + |payload| <= MAX_FRAME_LENGTH
    ensures next == AfterFrame(f, p, closing)
  {
    hide Utf8.StateAfter;
    if opcode == PONG {
      return More(p);
    }
    if opcode == PING {
      return More(p.(replies := p.replies + [Pong(payload)]));
    }
    if opcode == CLSE {
      var bad := CheckClose(payload);
      return if bad then Failed(p.replies) else Done(CLSE, payload, p.replies);
    }
    var kind: int, utf8, bad := p.kind, p.utf8, false;
    if opcode != CONT {
      kind := opcode;
    }
    if kind == TXT {
      utf8, bad := CheckText(p.utf8, payload, fin);
    }
    if bad {
      return Failed(p.replies + [Close(CLSE_INVUTF8)]);
    }
    var data := p.data + payload;
    return if fin then Done(kind, data, p.replies) else More(Progress(kind, data, utf8, p.replies));
  }

  /**
   Reads the next message and answers what has to be answered on the way; 0, with its type and bytes, or -1. All that
   matters of the stream is its bytes, not how they come in.
   */
  method NextFrame(wfd: Reader, closing: bool) returns (r: int, frameType: int, msg: seq<byte>, sent: seq<Reply>)
    requires wfd.Valid() && !wfd.error
    modifies wfd, wfd.frm
    ensures wfd.Valid()
    ensures match Receive(old(wfd.Stream()), START, closing)
            case Message(kind, payload, rest, replies) =>
              r == 0 && frameType == kind && msg == payload && wfd.Stream() == rest && sent == replies && !wfd.error
            case Failure(replies) => r == -1 && sent == replies && wfd.error
  {
    hide Receive, Refused, ParseFrame, ReadLength, ReadPayload, AfterFrame;
    var p := START;
    r, frameType, msg, sent := -1, -1, [], [];
    while true
      invariant wfd.Valid() && !wfd.error && r == -1
      invariant Receive(wfd.Stream(), p, closing) == Receive(old(wfd.Stream()), START, closing)
      decreases |wfd.Stream()|
    {
      ghost var s := wfd.Stream();
      var ok, fin, opcode, length7 := ReadHeader(wfd, p, p.kind, closing);
      if !ok {
        sent := p.replies;
        return;
      }
      var size := if IsControl(opcode) then 0 else |p.data|;
      var read, payload := ReadFrame(wfd, length7, size);
      if !read {
        Unread(s, p, closing, size);
        sent := p.replies;
        return;
      }
      Read(s, p, closing, size);
      var next := TakeFrame(p, fin, opcode, payload, ParseFrame(s).value.frame, closing);
      match next
      case More(q) =>
        p := q;
      case Done(kind, data, replies) =>
        r, frameType, msg, sent := 0, kind, data, replies;
        return;
      case Failed(replies) =>
        wfd.error := true;
        sent := replies;
        return;
    }
  }

  // ----- sending -----

  /** The shortest form of a payload length. */
  function FormOf(length: nat): (form: LengthForm)
    requires length < Range(8)
    ensures FitsForm(form, length)
  {
    if length <= 125 then Short else if length < 0x1_0000 then Medium else Long
  }

  /** A frame of the server: not masked. */
  function ServerFrame(opcode: nat, payload: seq<byte>): seq<byte>
    requires opcode < 16 && |payload| < Range(8)
  {
    [FirstByte(true, 0, opcode), SecondByte(false, FormOf(|payload|), |payload|)]
    + (LengthBytes(FormOf(|payload|), |payload|) + payload)
  }

  /** Writes the first k bytes of a number, the most significant one first, by dividing out each of them. */
  method WriteBigEndian(frame: array<byte>, at: nat, n: nat, k: nat)
    requires at + k <= frame.Length
    modifies frame
    ensures frame[at..at + k] == BigEndianBytes(n, k)
    ensures forall i | 0 <= i < frame.Length && !(at <= i < at + k) :: frame[i] == old(frame[i])
  {
    var left, i := n, k;
    ghost var tail: seq<byte> := [];
    assert frame[at + k..at + k] == [];
    while i > 0
      invariant 0 <= i <= k
      invariant BigEndianBytes(left, i) + frame[at + i..at + k] == BigEndianBytes(n, k)
      invariant forall j | 0 <= j < frame.Length && !(at <= j < at + k) :: frame[j] == old(frame[j])
    {
      ghost var before := frame[at + i..at + k];
      i := i - 1;
      frame[at + i] := left % 0x100;
      assert frame[at + i..at + k] == [left % 0x100] + before;
      assert BigEndianBytes(left, i + 1) == BigEndianBytes(left / 0x100, i) + [left % 0x100];
      left := left / 0x100;
    }
    assert BigEndianBytes(left, 0) == [];
  }

  /** The first bytes of a final frame: opcode, mask bit and payload length. */
  method BuildHeader(opcode: nat, maskBit: bool, length: nat) returns (frame: array<byte>, size: nat)
    requires opcode < 16 && length < Range(8)
    ensures fresh(frame) && size <= frame.Length
    ensures frame[..size] == [FirstByte(true, 0, opcode), SecondByte(maskBit, FormOf(length), length)]
                             + LengthBytes(FormOf(length), length)
  {
    hide BigEndianBytes, Range;
    frame := new byte[10](_ => 0);
    var mask := if maskBit then 0x80 else 0;
    frame[0] := 0x80 + opcode;
    if length <= 125 {
      frame[1], size := mask + length, 2;
    } else if length <= 65535 {
      frame[1], size := mask + 126, 4;
      WriteBigEndian(frame, 2, length, 2);
    } else {
      frame[1], size := mask + 127, 10;
      WriteBigEndian(frame, 2, length, 8);
    }
    assert frame[..size] == [frame[0], frame[1]] + frame[2..size];
  }

  /** Builds the bytes of a frame and sends them. */
  method SendFrame(payload: seq<byte>, opcode: nat) returns (sent: seq<byte>)
    requires opcode < 16 && |payload| < Range(8)
    ensures sent == ServerFrame(opcode, payload)
  {
    hide LengthBytes, Range;
    var length := |payload|;
    var frame, header := BuildHeader(opcode, false, length);
    var response := new byte[header + length + 1](_ => 0);
    forall i | 0 <= i < header {
      response[i] := frame[i];
    }
    forall i | 0 <= i < length {
      response[header + i] := payload[i];
    }
    sent := response[..header + length];
    assert sent == frame[..header] + payload;
  }
}
