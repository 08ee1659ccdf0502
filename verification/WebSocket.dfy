/**
 The server side of the WebSocket protocol: messages are put together from fragments with control frames in between,
 as sections 5.4 to 5.6 and 8.1 of RFC 6455 ask for.
 */
module WebSocket {
  import opened Bytes
  import opened WsFrames
  import Utf8

  const MAX_FRAME_LENGTH := 16 * 1024 * 1024
  const CLSE_INVUTF8 := 1007

  // ----- what the receiver does, as a function of the stream -----

  type Utf8State = x: int | 0 <= x <= 8

  /** Frames the receiver sends while it receives. */
  datatype Reply = Pong(payload: seq<byte>) | Close(code: nat)

  datatype Outcome = Message(kind: int, payload: seq<byte>, rest: seq<byte>, replies: seq<Reply>)
                   | Failure(replies: seq<Reply>)

  /** The receiver between two frames: the type of the message, -1 if there is none yet, and what came so far. */
  datatype Progress = Progress(kind: int, data: seq<byte>, utf8: Utf8State, replies: seq<Reply>)

  const START := Progress(-1, [], Utf8.ACCEPT, [])

  predicate IsOpcode(opcode: nat)
  {
    opcode == CONT || opcode == TXT || opcode == BIN || IsControl(opcode)
  }

  /** Frames that are refused for their first two bytes. */
  predicate Refused(f: Frame, kind: int, closing: bool)
  {
    || f.rsv != 0
    || (kind == -1 && f.opcode == CONT)
    || (kind != -1 && !IsControl(f.opcode) && f.opcode != CONT)
    || !IsOpcode(f.opcode)
    || (closing && f.opcode != CLSE)
    || (IsControl(f.opcode) && (!f.fin || f.form != Short))
  }

  /** What a frame leads to: on with the next frame, or an end. */
  datatype Next = More(progress: Progress) | Done(kind: int, payload: seq<byte>, replies: seq<Reply>)
                | Failed(replies: seq<Reply>)

  function KindAfter(f: Frame, kind: int): int
  {
    if f.opcode != CONT then f.opcode else kind
  }

  function AfterData(f: Frame, p: Progress): Next
  {
    var kind, data := KindAfter(f, p.kind), p.data + f.payload;
    if |data| > MAX_FRAME_LENGTH then Failed(p.replies)
    else
      var utf8: Utf8State := if kind == TXT then Utf8.StateAfter(p.utf8, f.payload) else p.utf8;
      if kind == TXT && (if f.fin then utf8 != Utf8.ACCEPT else utf8 == Utf8.REJECT)
      then Failed(p.replies + [Close(CLSE_INVUTF8)])
      else if f.fin then Done(kind, data, p.replies)
      else More(Progress(kind, data, utf8, p.replies))
  }

  function AfterFrame(f: Frame, p: Progress, closing: bool): Next
  {
    if Refused(f, p.kind, closing) then Failed(p.replies)
    else if f.opcode == PONG then More(p)
    else if f.opcode == PING then More(p.(replies := p.replies + [Pong(f.payload)]))
    else if f.opcode == CLSE then
      if |f.payload| > 2 && Utf8.StateAfter(Utf8.ACCEPT, f.payload[2..]) != Utf8.ACCEPT then Failed(p.replies)
      else Done(CLSE, f.payload, p.replies)
    else AfterData(f, p)
  }

  function Receive(s: seq<byte>, p: Progress, closing: bool): Outcome
    decreases |s|
  {
    var parsed := ParseFrame(s);
    if parsed.None? then Failure(p.replies)
    else
      match AfterFrame(parsed.value.frame, p, closing)
      case More(q) => Receive(parsed.value.rest, q, closing)
      case Done(kind, payload, replies) => Message(kind, payload, parsed.value.rest, replies)
      case Failed(replies) => Failure(replies)
  }

  // ----- legal messages -----

  /** The frames that are not control frames. */
  function DataFrames(fs: seq<Frame>): (d: seq<Frame>)
    ensures |d| <= |fs|
  {
    if fs == [] then [] else (if IsControl(fs[0].opcode) then [] else [fs[0]]) + DataFrames(fs[1..])
  }

  function Payloads(fs: seq<Frame>): seq<byte>
  {
    if fs == [] then [] else fs[0].payload + Payloads(fs[1..])
  }

  /** A pong for each ping, with its payload, in order. */
  function Pongs(fs: seq<Frame>): seq<Reply>
  {
    if fs == [] then [] else (if fs[0].opcode == PING then [Pong(fs[0].payload)] else []) + Pongs(fs[1..])
  }

  function EncodeFrames(fs: seq<Frame>): seq<byte>
    requires forall i | 0 <= i < |fs| :: WellFormed(fs[i])
  {
    if fs == [] then [] else EncodeFrame(fs[0]) + EncodeFrames(fs[1..])
  }

  predicate ValidText(s: seq<byte>)
  {
    Utf8.StateAfter(Utf8.ACCEPT, s) == Utf8.ACCEPT
  }

  /** Nothing in the text so far rules out that it becomes valid. */
  predicate StartOfText(s: seq<byte>)
  {
    Utf8.StateAfter(Utf8.ACCEPT, s) != Utf8.REJECT
  }

  /** A frame that may stand in a message at all. */
  predicate LegalFrame(f: Frame)
  {
    && WellFormed(f) && f.rsv == 0 && IsOpcode(f.opcode)
    && (IsControl(f.opcode) ==> f.fin && f.form == Short)
    && (f.opcode == CLSE && |f.payload| > 2 ==> ValidText(f.payload[2..]))
  }

  /** A frame that ends a message: the last data frame, or a close frame. */
  predicate Ends(f: Frame)
  {
    f.opcode == CLSE || (!IsControl(f.opcode) && f.fin)
  }

  /** The type of the message: of the one under way, or else of the first data frame. */
  function KindOf(fs: seq<Frame>, kind: int): int
  {
    var d := DataFrames(fs);
    if kind != -1 || d == [] then kind else d[0].opcode
  }

  /** All frames are legal, and the last one, only, ends the message. */
  predicate Shape(fs: seq<Frame>)
  {
    && fs != []
    && (forall i | 0 <= i < |fs| :: LegalFrame(fs[i]))
    && (forall i | 0 <= i < |fs| :: Ends(fs[i]) <==> i == |fs| - 1)
  }

  /** The first data frame tells the type, the others continue. */
  predicate Order(d: seq<Frame>, kind: int)
  {
    forall j | 0 <= j < |d| :: d[j].opcode == CONT <==> j > 0 || kind != -1
  }

  /** A text is valid, a text cut short not yet invalid. */
  predicate TextOk(kind: int, cut: bool, text: seq<byte>)
  {
    kind == TXT ==> if cut then StartOfText(text) else ValidText(text)
  }

  /**
   Frames that complete a message of which data has been received: fragments of one message, the first of them telling
   its type and the last one carrying FIN, any control frames in between, and no more than MAX_FRAME_LENGTH bytes in
   all; or such a message cut short by a close frame.
   */
  predicate Legal(fs: seq<Frame>, kind: int, data: seq<byte>)
  {
    && Shape(fs)
    && Order(DataFrames(fs), kind)
    && |data| + |Payloads(DataFrames(fs))| <= MAX_FRAME_LENGTH
    && TextOk(KindOf(fs, kind), fs[|fs| - 1].opcode == CLSE, data + Payloads(DataFrames(fs)))
  }

  /** The message the frames make. */
  function Result(fs: seq<Frame>, kind: int, data: seq<byte>, rest: seq<byte>, replies: seq<Reply>): Outcome
    requires fs != []
  {
    if fs[|fs| - 1].opcode == CLSE then Message(CLSE, fs[|fs| - 1].payload, rest, replies + Pongs(fs))
    else Message(KindOf(fs, kind), data + Payloads(DataFrames(fs)), rest, replies + Pongs(fs))
  }

  // ----- the receiver accepts exactly the legal messages -----

  /** What holds between two frames. */
  predicate Sound(p: Progress)
  {
    if p.kind == -1 then p.data == [] && p.utf8 == Utf8.ACCEPT
    else
      && (p.kind == TXT || p.kind == BIN) && |p.data| <= MAX_FRAME_LENGTH
      && (p.kind == TXT ==> p.utf8 == Utf8.StateAfter(Utf8.ACCEPT, p.data) && p.utf8 != Utf8.REJECT)
  }

  lemma ShapeCons(f: Frame, tail: seq<Frame>)
    ensures Shape([f] + tail) <==> LegalFrame(f) && if tail == [] then Ends(f) else !Ends(f) && Shape(tail)
  {
    hide LegalFrame, Ends;
    var fs := [f] + tail;
    assert fs[0] == f && forall i | 0 <= i < |tail| :: tail[i] == fs[i + 1];
  }

  lemma OrderCons(f: Frame, d: seq<Frame>, kind: int, next: int)
    requires next != -1
    ensures Order([f] + d, kind) <==> (f.opcode == CONT <==> kind != -1) && Order(d, next)
  {
    var all := [f] + d;
    assert all[0] == f && forall i | 0 <= i < |d| :: d[i] == all[i + 1];
  }

  lemma DataCons(f: Frame, tail: seq<Frame>)
    ensures DataFrames([f] + tail) == if IsControl(f.opcode) then DataFrames(tail) else [f] + DataFrames(tail)
    ensures Payloads([f] + tail) == f.payload + Payloads(tail)
    ensures Pongs([f] + tail) == (if f.opcode == PING then [Pong(f.payload)] else []) + Pongs(tail)
  {
    assert ([f] + tail)[1..] == tail;
  }

  /** A control frame that does not end the message changes nothing but the replies. */
  lemma ControlStep(f: Frame, tail: seq<Frame>, kind: int, data: seq<byte>)
    requires LegalFrame(f) && (f.opcode == PING || f.opcode == PONG)
    ensures Legal([f] + tail, kind, data) <==> Legal(tail, kind, data)
    ensures DataFrames([f] + tail) == DataFrames(tail) && KindOf([f] + tail, kind) == KindOf(tail, kind)
  {
    hide LegalFrame, Shape, Order, TextOk;
    ShapeCons(f, tail);
    DataCons(f, tail);
    if tail != [] {
      assert ([f] + tail)[|tail|] == tail[|tail| - 1];
    } else {
      assert !Shape(tail) by { NoShape(); }
    }
  }

  lemma NoShape()
    ensures !Shape([])
  {
  }

  /** A fragment that is not the last one. */
  lemma FragmentStep(f: Frame, tail: seq<Frame>, kind: int, data: seq<byte>)
    requires LegalFrame(f) && !IsControl(f.opcode) && !f.fin && (f.opcode == CONT <==> kind != -1)
    ensures Legal([f] + tail, kind, data) <==> Legal(tail, KindAfter(f, kind), data + f.payload)
    ensures DataFrames([f] + tail) == [f] + DataFrames(tail)
    ensures KindOf([f] + tail, kind) == KindOf(tail, KindAfter(f, kind)) == KindAfter(f, kind)
    ensures data + Payloads([f] + DataFrames(tail)) == (data + f.payload) + Payloads(DataFrames(tail))
  {
    ShapeCons(f, tail);
    DataCons(f, tail);
    DataCons(f, DataFrames(tail));
    OrderCons(f, DataFrames(tail), kind, KindAfter(f, kind));
    KindOfFragment(f, tail, kind);
    hide LegalFrame, Shape, Order, TextOk, KindOf, DataFrames, Payloads, KindAfter;
    assert data + (f.payload + Payloads(DataFrames(tail))) == (data + f.payload) + Payloads(DataFrames(tail));
    if tail != [] {
      LastOf(f, tail);
    } else {
      assert !Shape(tail) by { NoShape(); }
    }
  }

  lemma KindOfFragment(f: Frame, tail: seq<Frame>, kind: int)
    requires !IsControl(f.opcode) && (f.opcode == CONT <==> kind != -1)
    ensures KindOf([f] + tail, kind) == KindOf(tail, KindAfter(f, kind)) == KindAfter(f, kind) != -1
  {
    DataCons(f, tail);
    hide DataFrames;
  }

  /** The last frame. */
  lemma LastStep(f: Frame, tail: seq<Frame>, kind: int, data: seq<byte>)
    requires WellFormed(f) && Ends(f)
    ensures Legal([f] + tail, kind, data) ==> tail == []
    ensures f.opcode == CLSE ==>
              (Legal([f], kind, data) <==> LegalFrame(f) && |data| <= MAX_FRAME_LENGTH && TextOk(kind, true, data))
    ensures f.opcode != CLSE ==>
              (Legal([f], kind, data) <==>
               && LegalFrame(f) && (f.opcode == CONT <==> kind != -1) && |data + f.payload| <= MAX_FRAME_LENGTH
               && TextOk(KindAfter(f, kind), false, data + f.payload))
  {
    hide LegalFrame, Shape, Order, TextOk;
    ShapeCons(f, tail);
    ShapeCons(f, []);
    DataCons(f, []);
    DataCons(f, DataFrames([]));
    OrderCons(f, [], kind, 0);
    assert [f] + [] == [f];
    assert Order([], kind) && Order([], 0) by { NoOrder(kind); }
    assert data + [] == data && f.payload + [] == f.payload;
  }

  lemma NoOrder(kind: int)
    ensures Order([], kind) && Order([], 0)
  {
  }

  lemma NotYetInvalid(kind: int, cut: bool, a: seq<byte>, b: seq<byte>)
    requires TextOk(kind, cut, a + b)
    ensures kind == TXT ==> StartOfText(a)
  {
    hide Utf8.StateAfter;
    if kind == TXT {
      Utf8.FragmentsCompose(Utf8.ACCEPT, a, b);
      Utf8.RejectAbsorbs(b);
    }
  }

  /** The state handed from fragment to fragment is the state behind the whole text so far. */
  lemma TextState(f: Frame, p: Progress)
    requires Sound(p) && (p.kind == -1 || p.kind == TXT)
    ensures Utf8.StateAfter(Utf8.ACCEPT, p.data + f.payload) == Utf8.StateAfter(p.utf8, f.payload)
  {
    assert Utf8.StateAfter(Utf8.ACCEPT, []) == Utf8.ACCEPT;
    Utf8.FragmentsCompose(Utf8.ACCEPT, p.data, f.payload);
  }

  lemma ResultMore(f: Frame, p: Progress, q: Progress, tail: seq<Frame>, rest: seq<byte>)
    requires tail != [] && KindOf([f] + tail, p.kind) == KindOf(tail, q.kind)
    requires p.data + Payloads(DataFrames([f] + tail)) == q.data + Payloads(DataFrames(tail))
    requires q.replies == p.replies + if f.opcode == PING then [Pong(f.payload)] else []
    ensures Result([f] + tail, p.kind, p.data, rest, p.replies) == Result(tail, q.kind, q.data, rest, q.replies)
  {
    hide KindOf, Payloads, DataFrames, Pongs;
    PongsMore(f, tail, p.replies);
    LastOf(f, tail);
  }

  lemma PongsMore(f: Frame, tail: seq<Frame>, replies: seq<Reply>)
    ensures replies + Pongs([f] + tail) == (replies + if f.opcode == PING then [Pong(f.payload)] else []) + Pongs(tail)
  {
    DataCons(f, tail);
    hide Pongs;
    var pong := if f.opcode == PING then [Pong(f.payload)] else [];
    assert replies + (pong + Pongs(tail)) == (replies + pong) + Pongs(tail);
  }

  lemma LastOf(f: Frame, tail: seq<Frame>)
    requires tail != []
    ensures ([f] + tail)[|[f] + tail| - 1] == tail[|tail| - 1]
  {
  }

  lemma MoreAfterControl(f: Frame, p: Progress, tail: seq<Frame>, rest: seq<byte>)
    requires WellFormed(f) && Sound(p) && AfterFrame(f, p, false).More? && IsControl(f.opcode)
    ensures var q := AfterFrame(f, p, false).progress;
            && Sound(q)
            && (Legal([f] + tail, p.kind, p.data) <==> Legal(tail, q.kind, q.data))
            && (tail != [] ==>
                  Result([f] + tail, p.kind, p.data, rest, p.replies) == Result(tail, q.kind, q.data, rest, q.replies))
  {
    hide WellFormed, Legal, Utf8.StateAfter, Result;
    ControlStep(f, tail, p.kind, p.data);
    if tail != [] {
      assert p.replies + [] == p.replies;
      ResultMore(f, p, AfterFrame(f, p, false).progress, tail, rest);
    }
  }

  lemma MoreAfterFragment(f: Frame, p: Progress, tail: seq<Frame>, rest: seq<byte>)
    requires WellFormed(f) && Sound(p) && AfterFrame(f, p, false).More? && !IsControl(f.opcode)
    ensures var q := AfterFrame(f, p, false).progress;
            && Sound(q)
            && (Legal([f] + tail, p.kind, p.data) <==> Legal(tail, q.kind, q.data))
            && (tail != [] ==>
                  Result([f] + tail, p.kind, p.data, rest, p.replies) == Result(tail, q.kind, q.data, rest, q.replies))
  {
    hide WellFormed, Legal, Utf8.StateAfter, Result;
    var q := AfterFrame(f, p, false).progress;
    FragmentStep(f, tail, p.kind, p.data);
    if q.kind == TXT {
      TextState(f, p);
    }
    if tail != [] {
      assert p.replies + [] == p.replies;
      ResultMore(f, p, q, tail, rest);
    }
  }

  /** A frame after which the receiver goes on is one with which a legal message may go on, and the other way round. */
  lemma StepMore(f: Frame, p: Progress, tail: seq<Frame>, rest: seq<byte>)
    requires WellFormed(f) && Sound(p) && AfterFrame(f, p, false).More?
    ensures var q := AfterFrame(f, p, false).progress;
            && Sound(q)
            && (Legal([f] + tail, p.kind, p.data) <==> Legal(tail, q.kind, q.data))
            && (Legal(tail, q.kind, q.data) ==> tail != [])
            && (tail != [] ==>
                  Result([f] + tail, p.kind, p.data, rest, p.replies) == Result(tail, q.kind, q.data, rest, q.replies))
  {
    hide WellFormed, Legal, Sound, AfterFrame, Result;
    if IsControl(f.opcode) {
      MoreAfterControl(f, p, tail, rest);
    } else {
      MoreAfterFragment(f, p, tail, rest);
    }
    var q := AfterFrame(f, p, false).progress;
    if Legal(tail, q.kind, q.data) {
      LegalNonempty(tail, q.kind, q.data);
    }
  }

  lemma LegalNonempty(fs: seq<Frame>, kind: int, data: seq<byte>)
    requires Legal(fs, kind, data)
    ensures fs != []
  {
  }

  /** A frame that ends the message is the last one of a legal message. */
  lemma StepDone(f: Frame, p: Progress, tail: seq<Frame>, rest: seq<byte>)
    requires WellFormed(f) && Sound(p) && AfterFrame(f, p, false).Done?
    ensures var end := AfterFrame(f, p, false);
            && Legal([f], p.kind, p.data)
            && (Legal([f] + tail, p.kind, p.data) ==> tail == [])
            && Result([f], p.kind, p.data, rest, p.replies) == Message(end.kind, end.payload, rest, end.replies)
  {
    hide WellFormed, Legal, Utf8.StateAfter;
    LastStep(f, tail, p.kind, p.data);
    if f.opcode != CLSE && KindAfter(f, p.kind) == TXT {
      TextState(f, p);
    }
    DataCons(f, []);
    DataCons(f, DataFrames([]));
    assert [f] + [] == [f];
    assert f.payload + [] == f.payload && p.replies + [] == p.replies;
  }

  lemma LegalBounds(fs: seq<Frame>, kind: int, data: seq<byte>)
    requires Legal(fs, kind, data)
    ensures fs != [] && |data| <= MAX_FRAME_LENGTH
    ensures KindOf(fs, kind) == TXT ==> StartOfText(data)
  {
    hide Utf8.StateAfter;
    NotYetInvalid(KindOf(fs, kind), fs[|fs| - 1].opcode == CLSE, data, Payloads(DataFrames(fs)));
  }

  lemma LegalHead(f: Frame, tail: seq<Frame>, kind: int, data: seq<byte>)
    requires Legal([f] + tail, kind, data)
    ensures LegalFrame(f) && (!IsControl(f.opcode) ==> (f.opcode == CONT <==> kind != -1))
    ensures Ends(f) ==> Legal([f], kind, data)
  {
    hide LegalFrame, Ends, TextOk;
    ShapeCons(f, tail);
    DataCons(f, tail);
    OrderCons(f, DataFrames(tail), kind, 0);
    if Ends(f) {
      assert tail == [];
      assert [f] + tail == [f];
    }
  }

  /** A frame the receiver fails on is not part of any legal message. */
  lemma StepFailed(f: Frame, p: Progress, tail: seq<Frame>)
    requires WellFormed(f) && Sound(p) && AfterFrame(f, p, false).Failed?
    ensures !Legal([f] + tail, p.kind, p.data)
  {
    hide WellFormed, Utf8.StateAfter, Legal;
    if Legal([f] + tail, p.kind, p.data) {
      LegalHead(f, tail, p.kind, p.data);
      if !IsControl(f.opcode) {
        if KindAfter(f, p.kind) == TXT {
          TextState(f, p);
        }
        if f.fin {
          LastStep(f, [], p.kind, p.data);
        } else {
          FragmentStep(f, tail, p.kind, p.data);
          LegalBounds(tail, KindAfter(f, p.kind), p.data + f.payload);
        }
      }
    }
  }

  // ----- whole streams -----

  lemma EncodeCons(f: Frame, tail: seq<Frame>)
    requires WellFormed(f) && forall i | 0 <= i < |tail| :: WellFormed(tail[i])
    ensures forall i | 0 <= i < |[f] + tail| :: WellFormed(([f] + tail)[i])
    ensures EncodeFrames([f] + tail) == EncodeFrame(f) + EncodeFrames(tail)
  {
    hide WellFormed, EncodeFrame;
    assert ([f] + tail)[1..] == tail;
  }

  lemma LegalWellFormed(fs: seq<Frame>, kind: int, data: seq<byte>)
    requires Legal(fs, kind, data)
    ensures fs != [] && forall i | 0 <= i < |fs| :: WellFormed(fs[i])
  {
  }

  /** The frames of a legal message are received as that message, and nothing behind them is touched. */
  lemma {:induction false} LegalIsReceived(fs: seq<Frame>, p: Progress, rest: seq<byte>)
    requires Sound(p) && Legal(fs, p.kind, p.data)
    ensures fs != [] && forall i | 0 <= i < |fs| :: WellFormed(fs[i])
    ensures Receive(EncodeFrames(fs) + rest, p, false) == Result(fs, p.kind, p.data, rest, p.replies)
    decreases |fs|
  {
    hide WellFormed, Legal, EncodeFrame, ParseFrame, AfterFrame, Sound, Result;
    LegalWellFormed(fs, p.kind, p.data);
    var f, tail := fs[0], fs[1..];
    assert fs == [f] + tail;
    EncodeCons(f, tail);
    FrameReads(f, EncodeFrames(tail) + rest);
    assert EncodeFrames(fs) + rest == EncodeFrame(f) + (EncodeFrames(tail) + rest);
    match AfterFrame(f, p, false)
    case Failed(_) => StepFailed(f, p, tail);
    case Done(_, _, _) =>
      StepDone(f, p, tail, rest);
      assert EncodeFrames(tail) + rest == rest;
      assert fs == [f];
    case More(q) =>
      StepMore(f, p, tail, rest);
      LegalIsReceived(tail, q, rest);
  }

  /** And a message that is received stands in the stream as legal frames. */
  lemma {:induction false} ReceivedIsLegal(s: seq<byte>, p: Progress) returns (fs: seq<Frame>)
    requires Sound(p) && Receive(s, p, false).Message?
    ensures Legal(fs, p.kind, p.data) && fs != [] && forall i | 0 <= i < |fs| :: WellFormed(fs[i])
    ensures s == EncodeFrames(fs) + Receive(s, p, false).rest
    ensures Receive(s, p, false) == Result(fs, p.kind, p.data, Receive(s, p, false).rest, p.replies)
    decreases |s|
  {
    hide WellFormed, Legal, EncodeFrame, ParseFrame, AfterFrame, Sound, Result;
    var f, t := ParseFrame(s).value.frame, ParseFrame(s).value.rest;
    var rest := Receive(s, p, false).rest;
    FrameIs(s);
    match AfterFrame(f, p, false)
    case More(q) =>
      StepMore(f, p, [], rest);
      var tail := ReceivedIsLegal(t, q);
      StepMore(f, p, tail, rest);
      EncodeCons(f, tail);
      fs := [f] + tail;
      assert EncodeFrame(f) + (EncodeFrames(tail) + rest) == (EncodeFrame(f) + EncodeFrames(tail)) + rest;
    case Done(_, _, _) =>
      StepDone(f, p, [], rest);
      EncodeCons(f, []);
      fs := [f];
      assert [f] + [] == [f] && EncodeFrame(f) + EncodeFrames([]) == EncodeFrame(f);
    case Failed(_) =>
  }

  ghost predicate Stands(fs: seq<Frame>, s: seq<byte>, outcome: Outcome)
    requires outcome.Message?
  {
    && Legal(fs, -1, []) && fs != [] && (forall i | 0 <= i < |fs| :: WellFormed(fs[i]))
    && s == EncodeFrames(fs) + outcome.rest && outcome == Result(fs, -1, [], outcome.rest, [])
  }

  /** Reassembly: a message is received exactly when the stream starts with legal frames that make it. */
  lemma ReceivesExactly(s: seq<byte>, outcome: Outcome)
    requires outcome.Message?
    ensures Receive(s, START, false) == outcome <==> exists fs: seq<Frame> :: Stands(fs, s, outcome)
  {
    hide Receive, Legal, Result, EncodeFrames, WellFormed;
    assert Sound(START);
    if Receive(s, START, false) == outcome {
      var fs := ReceivedIsLegal(s, START);
      assert Stands(fs, s, outcome);
    }
    if fs: seq<Frame> :| Stands(fs, s, outcome) {
      LegalIsReceived(fs, START, outcome.rest);
    }
  }

  // ----- what is refused -----

  /** Where the receiver is behind some frames that do not end the message. */
  function AfterFrames(fs: seq<Frame>, p: Progress, closing: bool): Option<Progress>
    decreases |fs|
  {
    if fs == [] then Some(p)
    else
      match AfterFrame(fs[0], p, closing)
      case More(q) => AfterFrames(fs[1..], q, closing)
      case _ => None
  }

  /**
   A frame with a reserved bit or opcode, a continuation of nothing, a second start, a control frame that is
   fragmented or too long, anything but a close frame while closing: wherever it comes, the message fails, and only
   the pings before it have been answered.
   */
  lemma {:induction false} RefusedAnywhere(fs: seq<Frame>, p: Progress, bad: Frame, rest: seq<byte>, closing: bool)
    requires (forall i | 0 <= i < |fs| :: WellFormed(fs[i])) && WellFormed(bad)
    requires AfterFrames(fs, p, closing).Some? && Refused(bad, AfterFrames(fs, p, closing).value.kind, closing)
    ensures Receive(EncodeFrames(fs) + (EncodeFrame(bad) + rest), p, closing) == Failure(p.replies + Pongs(fs))
    decreases |fs|
  {
    hide WellFormed, EncodeFrame, ParseFrame, Refused;
    var s := EncodeFrame(bad) + rest;
    if fs == [] {
      assert EncodeFrames(fs) + s == s && p.replies + [] == p.replies;
      FrameReads(bad, rest);
    } else {
      var f, tail := fs[0], fs[1..];
      assert fs == [f] + tail;
      EncodeCons(f, tail);
      FrameReads(f, EncodeFrames(tail) + s);
      assert EncodeFrames(fs) + s == EncodeFrame(f) + (EncodeFrames(tail) + s);
      var q := AfterFrame(f, p, closing).progress;
      RefusedAnywhere(tail, q, bad, rest, closing);
      assert q.replies + Pongs(tail) == p.replies + Pongs(fs) by {
        PongsMore(f, tail, p.replies);
        RepliesOf(f, p, closing);
      }
    }
  }

  lemma RepliesOf(f: Frame, p: Progress, closing: bool)
    requires AfterFrame(f, p, closing).More?
    ensures AfterFrame(f, p, closing).progress.replies == p.replies + if f.opcode == PING then [Pong(f.payload)] else []
  {
    hide Utf8.StateAfter;
    assert p.replies + [] == p.replies;
  }
}
