/** The small client that comes with the server, and how the two understand each other. */
module ToyWs {
  import opened Bytes
  import opened ByteReader
  import opened WsFrames
  import opened WebSocket
  import opened WsServer
  import Utf8

  // ----- from the client to the server -----

  const MASKS: seq<byte> := [0xAA, 0xAA, 0xAA, 0xAA]

  /** A frame of the client: final, masked, with the shortest length. */
  function ClientFrame(opcode: nat, payload: seq<byte>): (f: Frame)
    requires opcode < 16 && |payload| < Range(8)
    ensures WellFormed(f)
  {
    Frame(true, 0, opcode, true, FormOf(|payload|), MASKS, payload)
  }

  /** Masks a copy of the payload in place. */
  method MaskInPlace(p: array<byte>)
    modifies p
    ensures p[..] == Masked(old(p[..]), MASKS)
  {
    hide Xor;
    var count := 0;
    while count < p.Length
      invariant 0 <= count <= p.Length
      invariant forall i | 0 <= i < count :: p[i] == Xor(old(p[i]), MASKS[i % 4])
      invariant forall i | count <= i < p.Length :: p[i] == old(p[i])
    {
      p[count] := Xor(p[count], MASKS[count % 4]);
      count := count + 1;
    }
  }

  method TwsSendFrame(payload: seq<byte>, opcode: nat) returns (sent: seq<byte>)
    requires opcode < 16 && |payload| < Range(8)
    ensures sent == EncodeFrame(ClientFrame(opcode, payload))
  {
    hide Range, LengthBytes, Xor, Masked, FormOf;
    var frame, size := BuildHeader(opcode, true, |payload|);
    sent := frame[..size];
    sent := sent + MASKS;
    var p := new byte[|payload|](i requires 0 <= i < |payload| => payload[i]);
    assert p[..] == payload;
    MaskInPlace(p);
    sent := sent + p[..];
    assert (frame[..size] + MASKS) + p[..] == frame[..size] + (MASKS + p[..]);
  }

  /** The server receives what the client sends, exactly when it is not too long and, as text, valid. */
  lemma ServerReceives(opcode: nat, payload: seq<byte>, rest: seq<byte>)
    requires (opcode == TXT || opcode == BIN) && |payload| < Range(8)
    ensures Receive(EncodeFrame(ClientFrame(opcode, payload)) + rest, START, false)
            == Message(opcode, payload, rest, [])
            <==> |payload| <= 0x100_0000 && (opcode == TXT ==> ValidText(payload))
  {
    hide EncodeFrame, ParseFrame, Range, Utf8.StateAfter;
    FrameReads(ClientFrame(opcode, payload), rest);
    assert [] + payload == payload;
  }

  // ----- from the server to the client -----

  datatype Received = Received(kind: nat, payload: seq<byte>, rest: seq<byte>)

  /** The frame behind its header: payloads of other than data frames are skipped, and then as much is read again. */
  function TwsBody(kind: nat, n: nat, t: seq<byte>): Option<Received>
  {
    var skip := if kind == TXT || kind == BIN then 0 else n;
    if |t| < skip + n then None else Some(Received(kind, t[skip..skip + n], t[skip + n..]))
  }

  /** What tws_receiveframe makes of a stream; nothing at a close frame or when the stream ends before. */
  function TwsReceive(s: seq<byte>): Option<Received>
  {
    if |s| < 2 || s[0] % 0x10 == CLSE then None
    else
      var length := ReadLength(s[1] % 0x80, s[2..]);
      if length.None? then None else TwsBody(s[0] % 0x10, length.value.value, s[2..][length.value.size..])
  }

  /** Skips n bytes; false if the stream ends before. */
  method SkipFrame(ctx: Reader, n: nat) returns (ok: bool)
    requires ctx.Valid()
    modifies ctx, ctx.frm
    ensures ctx.Valid() && (ok <==> n <= |old(ctx.Stream())|)
    ensures ok ==> ctx.Stream() == old(ctx.Stream())[n..] && ctx.error == old(ctx.error)
  {
    var i := 0;
    ghost var s := ctx.Stream();
    while i < n
      invariant 0 <= i <= n && i <= |s| && ctx.Valid() && ctx.Stream() == s[i..] && ctx.error == old(ctx.error)
    {
      var b := ctx.NextByte();
      if b == -1 {
        return false;
      }
      i := i + 1;
      assert s[i - 1..][1..] == s[i..];
    }
    ok := true;
  }

  /** Reads n bytes; false if the stream ends before. */
  method ReadBytes(ctx: Reader, n: nat) returns (ok: bool, buf: seq<byte>)
    requires ctx.Valid()
    modifies ctx, ctx.frm
    ensures ctx.Valid() && (ok <==> n <= |old(ctx.Stream())|)
    ensures ok ==> buf == old(ctx.Stream())[..n]
    ensures ok ==> ctx.Stream() == old(ctx.Stream())[n..] && ctx.error == old(ctx.error)
  {
    var i := 0;
    buf := [];
    ghost var s := ctx.Stream();
    while i < n
      invariant 0 <= i <= n && i <= |s| && ctx.Valid() && ctx.Stream() == s[i..] && ctx.error == old(ctx.error)
      invariant buf == s[..i]
    {
      var b := ctx.NextByte();
      if b == -1 {
        return false, [];
      }
      buf := buf + [b];
      i := i + 1;
      assert s[i - 1..][1..] == s[i..];
    }
    ok := true;
  }

  /** Opcode and payload length; ret tells whether there is anything to go on with. */
  method ReceiveHeader(ctx: Reader) returns (ret: int, opcode: nat, length: int)
    requires ctx.Valid()
    modifies ctx, ctx.frm
    ensures ctx.Valid()
    ensures var s := old(ctx.Stream());
            && (ret == 0 <==> |s| >= 2 && s[0] % 0x10 != CLSE && ReadLength(s[1] % 0x80, s[2..]).Some?)
            && (ret == 0 ==> opcode == s[0] % 0x10 && length == ReadLength(s[1] % 0x80, s[2..]).value.value
                             && ctx.Stream() == s[2..][ReadLength(s[1] % 0x80, s[2..]).value.size..])
  {
    hide ReadLength;
    ghost var s := ctx.Stream();
    ctx.error := false;
    length := 0;
    var first := ctx.NextByte();
    opcode := first % 0x10;
    if opcode == CLSE {
      return -1, opcode, 0;
    }
    ghost var s1 := ctx.Stream();
    var second := ctx.NextByte();
    assert |s| >= 2 ==> s1 == s[1..] && ctx.Stream() == s[2..];
    length := ReadLengthField(ctx, second % 0x80);
    ret := if ctx.error then 1 else 0;
  }

  /** The payload of a frame whose header was read. */
  method ReceiveBody(ctx: Reader, opcode: nat, length: nat) returns (ret: int, buf: seq<byte>)
    requires ctx.Valid()
    modifies ctx, ctx.frm
    ensures ctx.Valid()
    ensures var r := TwsBody(opcode, length, old(ctx.Stream()));
            && (ret == 0 <==> r.Some?) && (r.Some? ==> buf == r.value.payload && ctx.Stream() == r.value.rest)
  {
    ghost var t := ctx.Stream();
    ghost var skip := 0;
    buf := [];
    if opcode != TXT && opcode != BIN {
      var skipped := SkipFrame(ctx, length);
      skip := length;
      if !skipped {
        ret := -1;
        return;
      }
    }
    assert ctx.Stream() == t[skip..];
    var read;
    read, buf := ReadBytes(ctx, length);
    ret := if read then 0 else 1;
    if read {
      SkipThenTake(t, skip, length);
    }
  }

  method TwsReceiveFrame(ctx: Reader) returns (ret: int, buf: seq<byte>, frmType: int)
    requires ctx.Valid()
    modifies ctx, ctx.frm
    ensures ctx.Valid()
    ensures var r := TwsReceive(old(ctx.Stream()));
            && (r.Some? ==> ret == 0 && buf == r.value.payload && frmType == r.value.kind)
            && (r.Some? ==> ctx.Stream() == r.value.rest)
            && (r.None? ==> ret != 0)
  {
    hide ReadLength;
    buf, frmType := [], -1;
    var opcode, length;
    ret, opcode, length := ReceiveHeader(ctx);
    if ret == 0 {
      ret, buf := ReceiveBody(ctx, opcode, length);
      frmType := opcode;
    }
  }

  lemma SkipThenTake(t: seq<byte>, skip: nat, n: nat)
    requires skip + n <= |t|
    ensures t[skip..][..n] == t[skip..skip + n] && t[skip..][n..] == t[skip + n..]
  {
  }

  /** A ping of the server, say, is taken for the bytes that follow it. */
  lemma PingIsMisread(payload: seq<byte>, rest: seq<byte>)
    requires 0 < |payload| <= 125
    ensures TwsReceive(ServerFrame(PING, payload) + rest)
            == if |rest| < |payload| then None
               else Some(Received(PING, rest[..|payload|], rest[|payload|..]))
  {
    hide ReadLength;
    var s, n := ServerFrame(PING, payload) + rest, |payload|;
    assert n < Range(8) by { SmallLength(n); }
    LengthReads(Short, n, payload + rest);
    HeaderBytes(true, 0, PING);
    SecondByteOf(false, Short, n);
    assert s[2..] == [] + (payload + rest) && s[2..][0..] == payload + rest;
    if |rest| >= n {
      assert (payload + rest)[n..n + n] == rest[..n] && (payload + rest)[n + n..] == rest[n..];
    }
  }

  lemma SmallLength(n: nat)
    requires n <= 125
    ensures n < Range(8)
  {
    assert Range(2) == 0x1_0000;
    assert Range(4) > Range(2) && Range(6) > Range(4) && Range(8) > Range(6);
  }

  /** The client receives the data frames of the server, and of other frames only empty ones. */
  lemma ClientReceives(opcode: nat, payload: seq<byte>, rest: seq<byte>)
    requires opcode < 16 && |payload| < Range(8)
    ensures TwsReceive(ServerFrame(opcode, payload) + rest) == Some(Received(opcode, payload, rest))
            <==> opcode == TXT || opcode == BIN || (payload == [] && opcode != CLSE)
  {
    hide LengthBytes, ReadLength, Range, FitsForm;
    var form := FormOf(|payload|);
    var l := LengthBytes(form, |payload|);
    var s := ServerFrame(opcode, payload) + rest;
    assert s[2..] == l + (payload + rest);
    assert s[2..][|l|..] == payload + rest;
    LengthReads(form, |payload|, payload + rest);
    HeaderBytes(true, 0, opcode);
    SecondByteOf(false, form, |payload|);
    var n := |payload|;
    assert (payload + rest)[0..n] == payload && (payload + rest)[n..] == rest;
  }
}
