/**
 What becomes of the block format when lengths are counted in 32 bits and addresses end at 2^32: the decoding, the
 verdict on a block, and exactly when both are those of the format.
 */
module Lz4Counters {
  import opened Bytes
  import opened Lz4Format

  // ----- decoding with 32-bit counters -----

  /** What a 32-bit counter holds of a sum. */
  function Low32(n: nat): (r: nat)
    ensures r < U32 && r <= n && (n < U32 ==> r == n)
    decreases n
  {
    if n < U32 then n else Low32(n - U32)
  }

  lemma {:induction false} Low32IsRemainder(n: nat)
    ensures Low32(n) == n % U32
    decreases n
  {
    if n >= U32 {
      Low32IsRemainder(n - U32);
      OneLess(n);
    }
  }

  lemma OneLess(n: nat)
    requires n >= U32
    ensures n % U32 == (n - U32) % U32
  {
  }

  /** The bytes of a length extension, summed up to the first one below 255 or up to the position stop. */
  function RunUpTo(src: seq<byte>, ip: nat, stop: nat): (r: Run)
    requires ip < |src| && stop <= |src|
    ensures ip < r.next <= |src|
    decreases |src| - ip
  {
    if src[ip] < 255 || ip + 1 >= stop then Run(src[ip], ip + 1)
    else
      var rest := RunUpTo(src, ip + 1, stop);
      Run(255 + rest.length, rest.next)
  }

  /** The literal length at ip, without the reduction to 32 bits; none if the input is too short. */
  function LiteralField(src: seq<byte>, nibble: nat, ip: nat): (r: Option<Run>)
    ensures r.Some? ==> ip <= r.value.next && (ip <= |src| ==> r.value.next <= |src|)
  {
    if nibble < RUN_MASK then Some(Run(nibble, ip))
    else if ip + RUN_MASK >= |src| then None
    else
      var run := RunUpTo(src, ip, |src| - RUN_MASK);
      Some(Run(RUN_MASK + run.length, run.next))
  }

  function Literals32(src: seq<byte>, ip: nat): (r: Option<Run>)
    requires ip < |src|
    ensures r.Some? ==> ip < r.value.next && r.value.next + r.value.length <= |src|
  {
    match LiteralField(src, src[ip] / 16, ip + 1)
    case None => None
    case Some(run) =>
      if run.next + Low32(run.length) <= |src| then Some(Run(Low32(run.length), run.next)) else None
  }

  function Match32(src: seq<byte>, nibble: nat, at: nat): (r: Option<Copy>)
    ensures r.Some? ==> at < r.value.next <= |src| && r.value.length >= MINMATCH
  {
    if at + 2 > |src| then None
    else
      match Field(src, nibble, at + 2)
      case None => None
      case Some(run) => Some(Copy(ReadLE16(src[at], src[at + 1]), Low32(run.length) + MINMATCH, run.next))
  }

  function DecodeSequence32(src: seq<byte>, ip: nat, out: seq<byte>): (r: Step)
    ensures r.Next? ==> ip < r.ip <= |src|
  {
    if ip >= |src| then Bad
    else
      match Literals32(src, ip)
      case None => Bad
      case Some(lit) =>
        var at := lit.next + lit.length;
        var out1 := out + src[lit.next..at];
        if at == |src| then Last(out1)
        else
          match Match32(src, src[ip] % 16, at)
          case None => Bad
          case Some(c) =>
            if c.offset > |out1| then Bad else Next(c.next, CopyMatch(out1, c.offset, c.length))
  }

  /** The bytes a block means to 32-bit counters. */
  function Decode32(src: seq<byte>, ip: nat, out: seq<byte>): (r: Option<seq<byte>>)
    decreases |src| - ip
  {
    match DecodeSequence32(src, ip, out)
    case Bad => None
    case Last(out1) => Some(out1)
    case Next(ip1, out1) => Decode32(src, ip1, out1)
  }

  // ----- when that is what the format says -----

  /** No length field that is read on the way through the block reaches 2^32. */
  predicate NoFieldWraps(src: seq<byte>, ip: nat)
    decreases |src| - ip
  {
    ip < |src| && Literals32(src, ip).Some? ==>
      && LiteralField(src, src[ip] / 16, ip + 1).value.length < U32
      && var at := Literals32(src, ip).value.next + Literals32(src, ip).value.length;
         at < |src| && Match32(src, src[ip] % 16, at).Some? ==>
           && Field(src, src[ip] % 16, at + 2).value.length < U32
           && NoFieldWraps(src, Match32(src, src[ip] % 16, at).value.next)
  }

  /** A run that stops for a byte below 255 is the run of the format; one that does not has reached stop. */
  lemma {:induction false} RunStops(src: seq<byte>, ip: nat, stop: nat)
    requires ip < |src| && stop <= |src|
    ensures var run := RunUpTo(src, ip, stop);
            && (src[run.next - 1] < 255 ==> ReadRun(src, ip) == Some(run))
            && (src[run.next - 1] == 255 ==> run.length >= 255 && run.next >= stop)
            && (ReadRun(src, ip).Some? ==> run.length <= ReadRun(src, ip).value.length)
            && run.length <= 255 * (run.next - ip)
    decreases |src| - ip
  {
    if src[ip] == 255 && ip + 1 < stop {
      RunStops(src, ip + 1, stop);
    }
  }

  /** Literals whose length does not wrap are those of the format. */
  lemma LiteralsAgree(src: seq<byte>, ip: nat)
    requires |src| < 0x8000_0000 && ip < |src| && Literals32(src, ip).Some?
    ensures LiteralField(src, src[ip] / 16, ip + 1).value.length < U32 ==> Literals(src, ip) == Literals32(src, ip)
    ensures LiteralField(src, src[ip] / 16, ip + 1).value.length >= U32 ==> Literals(src, ip) == None
  {
    hide RunUpTo, ReadRun;
    if src[ip] / 16 == RUN_MASK {
      RunStops(src, ip + 1, |src| - RUN_MASK);
    }
  }

  lemma {:induction false} DecodeGrows(src: seq<byte>, ip: nat, out: seq<byte>)
    requires Decode(src, ip, out).Some?
    ensures |Decode(src, ip, out).value| >= |out|
    decreases |src| - ip
  {
    hide ReadRun, CopyMatch;
    var step := DecodeSequence(src, ip, out);
    if step.Next? {
      assert |step.out| >= |out|;
      DecodeGrows(src, step.ip, step.out);
    }
  }

  /** What is known of a sequence that was decoded. */
  lemma SequenceParts(src: seq<byte>, ip: nat, out: seq<byte>)
    requires !DecodeSequence32(src, ip, out).Bad?
    ensures ip < |src| && Literals32(src, ip).Some? && LiteralField(src, src[ip] / 16, ip + 1).Some?
    ensures var at := Literals32(src, ip).value.next + Literals32(src, ip).value.length;
            && (DecodeSequence32(src, ip, out).Last? <==> at == |src|)
            && (DecodeSequence32(src, ip, out).Next? ==>
                  && Match32(src, src[ip] % 16, at).Some? && Field(src, src[ip] % 16, at + 2).Some?
                  && DecodeSequence32(src, ip, out).ip == Match32(src, src[ip] % 16, at).value.next)
  {
    hide LiteralField, Field, CopyMatch;
  }

  /** Copy commands whose length does not wrap are those of the format; the others are longer than 2^32 bytes. */
  lemma MatchesAgree(src: seq<byte>, nibble: nat, at: nat)
    requires Match32(src, nibble, at).Some?
    ensures Field(src, nibble, at + 2).Some? && Match(src, nibble, at).Some?
    ensures Field(src, nibble, at + 2).value.length < U32 ==> Match(src, nibble, at) == Match32(src, nibble, at)
    ensures Field(src, nibble, at + 2).value.length >= U32 ==> Match(src, nibble, at).value.length >= U32
    ensures Match(src, nibble, at).value.offset == Match32(src, nibble, at).value.offset
  {
    hide Field;
  }

  /** A sequence whose literals do not wrap, as both read it. */
  lemma SequenceAgrees(src: seq<byte>, ip: nat, out: seq<byte>)
    requires ip < |src| && DecodeSequence32(src, ip, out).Next? && Literals(src, ip) == Literals32(src, ip)
    ensures var at := Literals32(src, ip).value.next + Literals32(src, ip).value.length;
            && Field(src, src[ip] % 16, at + 2).Some? && DecodeSequence(src, ip, out).Next?
            && (Field(src, src[ip] % 16, at + 2).value.length < U32 ==>
                  DecodeSequence(src, ip, out) == DecodeSequence32(src, ip, out))
            && (Field(src, src[ip] % 16, at + 2).value.length >= U32 ==> |DecodeSequence(src, ip, out).out| >= U32)
  {
    hide Literals, Literals32, Field, Match, Match32, CopyMatch;
    SequenceParts(src, ip, out);
    MatchesAgree(src, src[ip] % 16, Literals32(src, ip).value.next + Literals32(src, ip).value.length);
  }

  lemma LastAgrees(src: seq<byte>, ip: nat, out: seq<byte>)
    requires ip < |src| && DecodeSequence32(src, ip, out).Last? && Literals(src, ip) == Literals32(src, ip)
    ensures DecodeSequence(src, ip, out) == DecodeSequence32(src, ip, out)
  {
    hide Literals, Literals32, Match, Match32, CopyMatch;
    SequenceParts(src, ip, out);
  }

  /** A block that 32-bit counters decode means the same to the format exactly when no field that was read wraps. */
  lemma {:induction false} AgreesExactly(src: seq<byte>, ip: nat, out: seq<byte>)
    requires |src| < 0x8000_0000 && Decode32(src, ip, out).Some? && |Decode32(src, ip, out).value| < U32
    ensures Decode(src, ip, out) == Decode32(src, ip, out) <==> NoFieldWraps(src, ip)
    decreases |src| - ip
  {
    hide Literals, Literals32, LiteralField, Field, CopyMatch, Match32, DecodeSequence, DecodeSequence32;
    SequenceParts(src, ip, out);
    LiteralsAgree(src, ip);
    var step := DecodeSequence32(src, ip, out);
    if Literals(src, ip) == None {
      NoLiterals(src, ip, out);
    } else if step.Last? {
      LastAgrees(src, ip, out);
    } else {
      var at := Literals32(src, ip).value.next + Literals32(src, ip).value.length;
      SequenceAgrees(src, ip, out);
      AgreesExactly(src, step.ip, step.out);
      if Field(src, src[ip] % 16, at + 2).value.length >= U32 && Decode(src, ip, out).Some? {
        DecodeGrows(src, DecodeSequence(src, ip, out).ip, DecodeSequence(src, ip, out).out);
      }
    }
  }

  lemma NoLiterals(src: seq<byte>, ip: nat, out: seq<byte>)
    requires ip < |src| && Literals(src, ip) == None
    ensures DecodeSequence(src, ip, out) == Bad
  {
  }

  // ----- which blocks the decoder accepts -----

  /**
   How a step of the decoder ends: with the next sequence, with the block, with an error, or with a match whose end
   lies behind the last address and is therefore taken for the start of memory.
   */
  datatype Status = Continue | Done | Error | Astray

  /** A copy command from output position op: the checks from the label _copy_match on, in a buffer at an address. */
  function CopyVerdict(src: seq<byte>, nibble: nat, offset: nat, ip: nat, op: nat, capacity: nat, address: nat): Status
  {
    var field := Field(src, nibble, ip);
    if offset > op || field.None? || (nibble >= ML_MASK && field.value.next + LASTLITERALS > |src|) then Error
    else
      var length := Low32(field.value.length);
      if address + op + length >= U32 then Error
      else if address + op + length + MINMATCH >= U32 then Astray
      else if op + length + MINMATCH + LASTLITERALS <= capacity then Continue else Error
  }

  /** Whether the two-stage shortcut is entered. */
  predicate ShortcutEntered(src: seq<byte>, ip: nat, pos: nat, capacity: nat)
    requires ip < |src|
  {
    src[ip] / 16 != RUN_MASK && ip + 1 < |src| - 14 - 2 && pos <= capacity - 14 - 18
  }

  function SequenceVerdict(src: seq<byte>, ip: nat, pos: nat, capacity: nat, address: nat): Status
    requires ip < |src|
  {
    match Literals32(src, ip)
    case None => Error
    case Some(lit) =>
      var at, op, nibble := lit.next + lit.length, pos + lit.length, src[ip] % 16;
      if ShortcutEntered(src, ip, pos, capacity) then
        assert lit.length < 15 && lit.next == ip + 1;
        var offset := ReadLE16(src[at], src[at + 1]);
        if nibble != ML_MASK && 8 <= offset <= op then Continue
        else CopyVerdict(src, nibble, offset, at + 2, op, capacity, address)
      else if at + 8 > |src| || op + MFLIMIT > capacity then
        if at == |src| && op <= capacity then Done else Error
      else CopyVerdict(src, nibble, ReadLE16(src[at], src[at + 1]), at + 2, op, capacity, address)
  }

  /** A step that continues has read a copy command. */
  lemma ContinuesWithMatch(src: seq<byte>, ip: nat, pos: nat, capacity: nat, address: nat)
    requires ip < |src| && SequenceVerdict(src, ip, pos, capacity, address) == Continue
    ensures Literals32(src, ip).Some?
    ensures var at := Literals32(src, ip).value.next + Literals32(src, ip).value.length;
            at < |src| && Match32(src, src[ip] % 16, at).Some?
  {
    hide RunUpTo;
  }

  /** From ip on, with pos bytes decoded. */
  function Verdict(src: seq<byte>, ip: nat, pos: nat, capacity: nat, address: nat): Status
    decreases |src| - ip
  {
    if ip >= |src| then Error
    else
      var status := SequenceVerdict(src, ip, pos, capacity, address);
      if status != Continue then status
      else
        ContinuesWithMatch(src, ip, pos, capacity, address);
        var lit := Literals32(src, ip).value;
        var c := Match32(src, src[ip] % 16, lit.next + lit.length).value;
        Verdict(src, c.next, pos + lit.length + c.length, capacity, address)
  }

  /** The verdict on a block; into an empty buffer only the block of nothing is decoded. */
  function BlockVerdict(src: seq<byte>, capacity: nat, address: nat): Status
  {
    if capacity == 0 then if src == [0] then Done else Error else Verdict(src, 0, 0, capacity, address)
  }

  // ----- blocks that respect the restrictions at their end -----

  lemma ConformingLiterals(src: seq<byte>, ip: nat)
    requires |src| < 0x8000_0000 && ip < |src| && Literals(src, ip).Some?
    ensures Literals32(src, ip) == Literals(src, ip)
    ensures LiteralField(src, src[ip] / 16, ip + 1).Some?
    ensures LiteralField(src, src[ip] / 16, ip + 1).value.length < U32
  {
    hide RunUpTo, ReadRun;
    if src[ip] / 16 == RUN_MASK {
      RunGrows(src, ip + 1);
      RunReached(src, ip + 1, |src| - RUN_MASK);
    }
  }

  lemma {:induction false} RunGrows(src: seq<byte>, ip: nat)
    requires ReadRun(src, ip).Some?
    ensures ip < |src| && ip < ReadRun(src, ip).value.next <= |src|
  {
  }

  /** A run that ends no later than stop is read as it is. */
  lemma {:induction false} RunReached(src: seq<byte>, ip: nat, stop: nat)
    requires ip < |src| && stop <= |src| && ReadRun(src, ip).Some? && ReadRun(src, ip).value.next <= stop
    ensures ReadRun(src, ip) == Some(RunUpTo(src, ip, stop))
    decreases |src| - ip
  {
    if src[ip] == 255 {
      RunGrows(src, ip + 1);
      RunReached(src, ip + 1, stop);
    }
  }

  lemma ShortLiterals(src: seq<byte>, ip: nat)
    requires ip < |src| && src[ip] / 16 != RUN_MASK && Literals32(src, ip).Some?
    ensures Literals32(src, ip) == Some(Run(src[ip] / 16, ip + 1))
  {
  }

  /** A copy command with the margins of a conforming block. */
  lemma CopyAccepted(src: seq<byte>, nibble: nat, at: nat, op: nat, capacity: nat, address: nat)
    requires at < |src| && Match(src, nibble, at).Some? && address + capacity < U32
    requires var c := Match(src, nibble, at).value;
             c.offset <= op && c.next + LASTLITERALS <= |src| && op + c.length + LASTLITERALS <= capacity
    ensures at + 2 <= |src|
    ensures CopyVerdict(src, nibble, ReadLE16(src[at], src[at + 1]), at + 2, op, capacity, address) == Continue
    ensures Match32(src, nibble, at) == Match(src, nibble, at) && Field(src, nibble, at + 2).value.length < U32
  {
    hide Field, ReadLE16;
  }

  lemma VerdictOnLast(src: seq<byte>, ip: nat, pos: nat, capacity: nat, address: nat)
    requires ip < |src| && Literals32(src, ip).Some?
    requires var lit := Literals32(src, ip).value; lit.next + lit.length == |src| && pos + lit.length <= capacity
    ensures SequenceVerdict(src, ip, pos, capacity, address) == Done
  {
    hide Literals32, CopyVerdict;
    if ShortcutEntered(src, ip, pos, capacity) {
      ShortLiterals(src, ip);
    }
  }

  lemma VerdictOnCopy(src: seq<byte>, ip: nat, pos: nat, capacity: nat, address: nat)
    requires ip < |src| && Literals32(src, ip).Some?
    requires var lit := Literals32(src, ip).value;
             var at, op := lit.next + lit.length, pos + lit.length;
             && at + 8 <= |src| && op + MFLIMIT <= capacity
             && var offset := ReadLE16(src[at], src[at + 1]);
                CopyVerdict(src, src[ip] % 16, offset, at + 2, op, capacity, address) == Continue
    ensures SequenceVerdict(src, ip, pos, capacity, address) == Continue
  {
    hide Literals32, CopyVerdict;
  }

  /** Conforming blocks run into none of the decoder's checks. */
  lemma ConformingSequence(src: seq<byte>, ip: nat, pos: nat, total: nat, capacity: nat, address: nat)
    requires |src| < 0x8000_0000 && Conforms(src, ip, pos, total) && total <= capacity && address + capacity < U32
    ensures Literals32(src, ip) == Literals(src, ip)
    ensures var at := Literals(src, ip).value.next + Literals(src, ip).value.length;
            if at == |src| then SequenceVerdict(src, ip, pos, capacity, address) == Done
            else
              && SequenceVerdict(src, ip, pos, capacity, address) == Continue
              && Match32(src, src[ip] % 16, at) == Match(src, src[ip] % 16, at)
              && Field(src, src[ip] % 16, at + 2).value.length < U32
  {
    hide LiteralField, Literals, Literals32, Field, Match, Match32, CopyVerdict, SequenceVerdict, ReadLE16;
    ConformingLiterals(src, ip);
    var lit := Literals(src, ip).value;
    var at := lit.next + lit.length;
    if at < |src| {
      var c := Match(src, src[ip] % 16, at).value;
      ConformsMargin(src, c.next, pos + lit.length + c.length, total);
      assert at + 8 <= |src| by { MatchSize(src, src[ip] % 16, at); }
      CopyAccepted(src, src[ip] % 16, at, pos + lit.length, capacity, address);
      VerdictOnCopy(src, ip, pos, capacity, address);
    } else {
      VerdictOnLast(src, ip, pos, capacity, address);
    }
  }

  lemma MatchSize(src: seq<byte>, nibble: nat, at: nat)
    requires Match(src, nibble, at).Some?
    ensures at + 2 <= Match(src, nibble, at).value.next
  {
  }

  /** They are accepted, and mean to 32-bit counters what they mean to the format. */
  lemma {:induction false} ConformingAccepted(src: seq<byte>, ip: nat, pos: nat, total: nat,
                                              capacity: nat, address: nat)
    requires |src| < 0x8000_0000 && Conforms(src, ip, pos, total) && total <= capacity
    requires address + capacity < U32
    ensures Verdict(src, ip, pos, capacity, address) == Done && NoFieldWraps(src, ip)
    decreases |src| - ip
  {
    hide LiteralField, Literals, Literals32, Match, Match32, Field, SequenceVerdict;
    ConformingLiterals(src, ip);
    ConformingSequence(src, ip, pos, total, capacity, address);
    var lit := Literals(src, ip).value;
    if lit.next + lit.length < |src| {
      var c := Match(src, src[ip] % 16, lit.next + lit.length).value;
      ConformingAccepted(src, c.next, pos + lit.length + c.length, total, capacity, address);
    }
  }

  // ----- how long a field can get -----

  lemma {:induction false} FieldSize(src: seq<byte>, ip: nat)
    requires ReadRun(src, ip).Some?
    ensures ip < ReadRun(src, ip).value.next <= |src|
    ensures ReadRun(src, ip).value.length <= 255 * (ReadRun(src, ip).value.next - ip)
    decreases |src| - ip
  {
    if src[ip] == 255 {
      FieldSize(src, ip + 1);
    }
  }

  /** A copy that is accepted ends inside the buffer. */
  lemma ContinueFits(src: seq<byte>, ip: nat, pos: nat, capacity: nat, address: nat)
    requires ip < |src| && SequenceVerdict(src, ip, pos, capacity, address) == Continue
    ensures Literals32(src, ip).Some?
    ensures var lit := Literals32(src, ip).value;
            var c := Match32(src, src[ip] % 16, lit.next + lit.length);
            c.Some? ==> pos + lit.length + c.value.length <= capacity
  {
    hide RunUpTo, ReadRun, ReadLE16;
  }

  /** In a block of less than 16.8 million bytes no length field can wrap. */
  lemma {:induction false} ShortBlocksFit(src: seq<byte>, ip: nat)
    requires |src| <= 16_843_000
    ensures NoFieldWraps(src, ip)
    decreases |src| - ip
  {
    if ip < |src| && Literals32(src, ip).Some? {
      var at := Literals32(src, ip).value.next + Literals32(src, ip).value.length;
      hide Literals32, Match32, ReadRun, RunUpTo;
      LiteralSize(src, ip);
      if at < |src| && Match32(src, src[ip] % 16, at).Some? {
        MatchesAgree(src, src[ip] % 16, at);
        if ReadRun(src, at + 2).Some? {
          FieldSize(src, at + 2);
        }
        ShortBlocksFit(src, Match32(src, src[ip] % 16, at).value.next);
      }
    }
  }

  lemma LiteralSize(src: seq<byte>, ip: nat)
    requires ip < |src| && Literals32(src, ip).Some?
    ensures LiteralField(src, src[ip] / 16, ip + 1).Some?
    ensures LiteralField(src, src[ip] / 16, ip + 1).value.length <= 255 * |src| + 15
  {
    hide RunUpTo;
    if src[ip] / 16 == RUN_MASK {
      RunStops(src, ip + 1, |src| - RUN_MASK);
    }
  }

  // ----- a block on which the two disagree -----

  const WRAP := 16_843_009

  /** 15 literals announced by a length field that sums up to 2^32 + 15. */
  function WrappedBlock(tail: seq<byte>): seq<byte>
    requires |tail| == 15
  {
    [0xF0] + seq(WRAP, _ => 255) + [1] + tail
  }

  lemma {:induction false} RunOf255s(src: seq<byte>, ip: nat, n: nat, stop: nat)
    requires ip + n < stop <= |src| && src[ip + n] < 255 && forall i | ip <= i < ip + n :: src[i] == 255
    ensures RunUpTo(src, ip, stop) == Run(255 * n + src[ip + n], ip + n + 1)
    decreases n
  {
    if n > 0 {
      RunOf255s(src, ip + 1, n - 1, stop);
    }
  }

  /** The decoder accepts this block and returns the fifteen bytes; the format gives it no meaning. */
  lemma WrappedBlockIsAccepted(tail: seq<byte>, capacity: nat, address: nat)
    requires |tail| == 15 && capacity >= 15
    ensures BlockVerdict(WrappedBlock(tail), capacity, address) == Done
    ensures Decode32(WrappedBlock(tail), 0, []) == Some(tail) && Decode(WrappedBlock(tail), 0, []) == None
    ensures !NoFieldWraps(WrappedBlock(tail), 0)
  {
    hide RunUpTo, ReadRun, CopyVerdict, Match, Match32, Literals, DecodeSequence;
    var src := WrappedBlock(tail);
    assert |src| == WRAP + 17 && src[0] == 0xF0 && src[1 + WRAP] == 1;
    assert src[WRAP + 2..] == tail;
    RunOf255s(src, 1, WRAP, |src| - RUN_MASK);
    assert Literals32(src, 0) == Some(Run(15, WRAP + 2));
    LiteralsAgree(src, 0);
    NoLiterals(src, 0, []);
    assert [] + src[WRAP + 2..|src|] == tail;
    assert DecodeSequence32(src, 0, []) == Last(tail);
  }
}
