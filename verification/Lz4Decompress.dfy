/**
 The block decoder as this program instantiates it: input length known, whole blocks, no dictionary, and the
 safe loop only.  Pointers are indices; oend and iend are the lengths of the two buffers.
 */
module Lz4Decompress {
  import opened Bytes
  import opened Lz4Astray
  import opened Lz4Counters
  import opened Lz4Format
  import opened Lz4Memory

  // ----- length fields -----

  datatype RunStatus = Ok | LoopError | InitialError

  /** n bytes of 255, then a run. */
  function After255s(n: nat, rest: Run): Run
  {
    Run(255 * n + rest.length, rest.next)
  }

  lemma RunStep(src: seq<byte>, ip: nat, stop: nat)
    requires ip < |src| && stop <= |src|
    ensures src[ip] < 255 || ip + 1 >= stop ==> RunUpTo(src, ip, stop) == Run(src[ip], ip + 1)
    ensures src[ip] == 255 && ip + 1 < stop ==> RunUpTo(src, ip, stop) == After255s(1, RunUpTo(src, ip + 1, stop))
  {
  }

  /** Reducing as one counts is reducing the sum. */
  lemma CountMore(sum: nat, s: nat)
    ensures (sum % U32 + s) % U32 == (sum + s) % U32
  {
  }

  /** Reads a length extension in a 32-bit counter, giving up when the cursor reaches lencheck. */
  method ReadVariableLength(src: seq<byte>, start: nat, lencheck: int, initialCheck: bool)
    returns (length: uint32, ip: nat, error: RunStatus)
    requires lencheck <= |src| && (initialCheck || start < |src|)
    ensures error.InitialError? <==> initialCheck && start >= lencheck
    ensures error.InitialError? ==> ip == start
    ensures !error.InitialError? ==>
              && start < |src|
              && var run := RunUpTo(src, start, if lencheck < 0 then 0 else lencheck);
                 length == run.length % U32 && ip == run.next && (error.LoopError? <==> ip >= lencheck)
  {
    hide RunUpTo;
    length, ip, error := 0, start, Ok;
    if initialCheck && ip >= lencheck {
      return 0, ip, InitialError;
    }
    ghost var stop: nat := if lencheck < 0 then 0 else lencheck;
    while true
      invariant start <= ip < |src| && (ip == start || ip < lencheck)
      invariant length == 255 * (ip - start) % U32
      invariant RunUpTo(src, start, stop) == After255s(ip - start, RunUpTo(src, ip, stop))
      decreases |src| - ip
    {
      RunStep(src, ip, stop);
      CountMore(255 * (ip - start), src[ip]);
      var s := src[ip];
      ip := ip + 1;
      length := (length + s) % U32;
      if ip >= lencheck {
        return length, ip, LoopError;
      }
      if s != 255 {
        return length, ip, Ok;
      }
    }
  }

  // ----- overlapping copies -----

  /** In a replayed region, going back by k offsets or by one gives the same byte. */
  lemma {:induction false} ReplaysBackwards(s: seq<byte>, op: nat, hi: nat, offset: nat, a: nat, b: nat, k: nat)
    requires 0 < offset <= op && hi <= |s| && Replays(s, op, hi, offset)
    requires op - offset <= a <= b < hi && b == a + k * offset
    ensures s[a] == s[b]
    decreases k
  {
    if k > 0 {
      assert (k - 1) * offset == k * offset - offset;
      assert k * offset >= offset;
      ReplaysBackwards(s, op, hi, offset, a, b - offset, k - 1);
    }
  }

  /** Copying from any multiple of the offset continues the replayed region. */
  lemma {:induction false} ReplaysExtends(s: seq<byte>, op: nat, mid: nat, hi: nat, offset: nat, dist: nat, k: nat)
    requires offset <= op <= mid <= hi <= |s| && Replays(s, op, mid, offset)
    requires dist > 0 && (offset == 0 ==> op + dist <= mid)
    requires offset > 0 ==> k > 0 && dist == k * offset && op + dist <= mid + offset
    requires forall p | mid <= p < hi :: s[p] == s[p - dist]
    ensures Replays(s, op, hi, offset)
    decreases hi - mid
  {
    if mid < hi {
      if offset > 0 {
        assert (k - 1) * offset == dist - offset;
        ReplaysBackwards(s, op, mid, offset, mid - dist, mid - offset, k - 1);
      }
      assert s[mid] == s[mid - dist];
      assert offset == 0 ==> s[mid - dist] == 0;
      ReplaysExtends(s, op, mid + 1, hi, offset, dist, k);
    }
  }

  const INC32: seq<int> := [0, 1, 2, 1, 0, 4, 4, 4]
  const DEC64: seq<int> := [0, 0, 0, -1, -4, 1, 2, 3]

  /** Behind the first eight bytes the copy source is this far back. */
  function Distance(offset: nat): int
  {
    if offset < 8 then 8 + offset - INC32[offset] + DEC64[offset] else offset
  }

  function Multiple(offset: nat): nat
  {
    if offset == 0 || offset >= 8 then 1 else [8, 4, 3, 2, 2, 2, 2][offset - 1]
  }

  /** The tables turn every short offset into a multiple of itself that is at least eight, but not too far. */
  lemma DistanceIsMultiple(offset: nat)
    ensures 8 <= Distance(offset) <= 8 + offset
    ensures offset > 0 ==> Distance(offset) == Multiple(offset) * offset
    ensures offset == 0 ==> Distance(offset) == 8
  {
    if 0 < offset < 8 {
      assert offset == 1 || offset == 2 || offset == 3 || offset == 4 || offset == 5 || offset == 6 || offset == 7;
    }
  }

  /** The first eight bytes of a match with a short offset: four single bytes, then four at once. */
  method CopyFirst8Short(dst: array<byte>, op: nat, offset: nat) returns (match_: nat)
    requires offset < 8 && offset <= op && op + 8 <= dst.Length
    requires offset == 0 ==> forall i | op <= i < op + 4 :: dst[i] == 0
    modifies dst
    ensures match_ == op + 8 - Distance(offset)
    ensures Replays(dst[..], op, op + 8, offset)
    ensures forall p | 0 <= p < op :: dst[p] == old(dst[p])
  {
    var inc, dec := INC32[offset], DEC64[offset];
    var m := op - offset;
    Copy4Bytes(dst, op, m);
    assert Replays(dst[..], op, op + 4, offset);
    m := m + inc;
    CopyWithin(dst, op + 4, m, 4);
    FirstEightReplay(dst[..], op, offset, op + 4 - m);
    match_ := m - dec;
  }

  /** op[0] = match[0] up to op[3] = match[3], in that order. */
  method Copy4Bytes(dst: array<byte>, op: nat, m: nat)
    requires m <= op && op + 4 <= dst.Length
    modifies dst
    ensures forall p | op <= p < op + 4 :: dst[p] == dst[p - (op - m)]
    ensures forall p | 0 <= p < dst.Length && !(op <= p < op + 4) :: dst[p] == old(dst[p])
    ensures m == op ==> forall p | op <= p < op + 4 :: dst[p] == old(dst[p])
  {
    dst[op] := dst[m];
    dst[op + 1] := dst[m + 1];
    dst[op + 2] := dst[m + 2];
    dst[op + 3] := dst[m + 3];
  }

  /** The first eight bytes of a match. */
  method CopyFirst8(dst: array<byte>, op: nat, offset: nat) returns (match_: nat)
    requires offset <= op && op + 8 <= dst.Length
    requires offset == 0 ==> forall i | op <= i < op + 4 :: dst[i] == 0
    modifies dst
    ensures match_ == op + 8 - Distance(offset)
    ensures Replays(dst[..], op, op + 8, offset)
    ensures forall p | 0 <= p < op :: dst[p] == old(dst[p])
  {
    if offset < 8 {
      match_ := CopyFirst8Short(dst, op, offset);
    } else {
      CopyWithin(dst, op, op - offset, 8);
      match_ := op - offset + 8;
    }
  }

  lemma FirstEightReplay(s: seq<byte>, op: nat, offset: nat, dist: nat)
    requires offset < 8 && offset <= op && op + 8 <= |s| && Replays(s, op, op + 4, offset)
    requires dist == 4 + offset - INC32[offset]
    requires forall p | op + 4 <= p < op + 8 :: s[p] == s[p - dist]
    ensures Replays(s, op, op + 8, offset)
  {
    var k := [1, 4, 2, 2, 2, 1, 1, 1][offset];
    if offset > 0 {
      assert offset == 1 || offset == 2 || offset == 3 || offset == 4 || offset == 5 || offset == 6 || offset == 7;
      assert dist == k * offset;
    }
    ReplaysExtends(s, op, op + 4, op + 8, offset, dist, k);
  }

  lemma CopyFinished(first: seq<byte>, s: seq<byte>, op: nat, offset: nat, n: nat)
    requires offset <= op && |first| == |s| && op + 8 <= |s| && op + n <= |s|
    requires Replays(first, op, op + 8, offset) && s[..op + 8] == first[..op + 8]
    requires forall p | op + 8 <= p < op + n :: s[p] == s[p - Distance(offset)]
    ensures s[..op + n] == CopyMatch(first[..op], offset, n)
  {
    DistanceIsMultiple(offset);
    assert forall p | 0 <= p < op + 8 :: s[p] == s[..op + 8][p] == first[p];
    assert Replays(s, op, op + 8, offset);
    if n > 8 {
      ReplaysExtends(s, op, op + 8, op + n, offset, Distance(offset), Multiple(offset));
    }
    assert s[..op] == first[..op];
    ReplaysIsCopyMatch(s, op, offset, n);
  }

  /** The end of a match close to the end of the buffer: eight bytes at a time, then one at a time. */
  method CopyMatchEnd(dst: array<byte>, op0: nat, match0: nat, cpy: nat)
    requires match0 + 8 <= op0 <= dst.Length && cpy + LASTLITERALS <= dst.Length
    modifies dst
    ensures forall p | 0 <= p < op0 :: dst[p] == old(dst[p])
    ensures forall p | op0 <= p < cpy :: dst[p] == dst[p - (op0 - match0)]
  {
    var op, match_, oCopyLimit := op0, match0, dst.Length - 7;
    if op < oCopyLimit {
      WildCopyWithin(dst, op, match_, oCopyLimit);
      match_ := match_ + (oCopyLimit - op);
      op := oCopyLimit;
    }
    while op < cpy
      invariant op0 <= op <= dst.Length && match_ == op - (op0 - match0)
      invariant forall p | 0 <= p < op0 :: dst[p] == old(dst[p])
      invariant forall p | op0 <= p < op :: dst[p] == dst[p - (op0 - match0)]
    {
      dst[op] := dst[match_];
      op, match_ := op + 1, match_ + 1;
    }
  }

  /** Copies a match of the given length; false when it would enter the last five bytes of the buffer. */
  method CopyMatchBytes(dst: array<byte>, op0: nat, offset: nat, length: nat) returns (ok: bool, ghost first: seq<byte>)
    requires offset <= op0 && op0 + MFLIMIT <= dst.Length && length >= MINMATCH
    requires offset == 0 ==> forall i | op0 <= i < op0 + 4 :: dst[i] == 0
    modifies dst
    ensures ok <==> op0 + length + LASTLITERALS <= dst.Length
    ensures |first| == dst.Length && Replays(first, op0, op0 + 8, offset)
    ensures forall p | 0 <= p < op0 :: first[p] == old(dst[p])
    ensures ok ==> forall p | 0 <= p < op0 + 8 :: dst[p] == first[p]
    ensures ok ==> 8 <= Distance(offset) <= 8 + offset
    ensures ok ==> forall p | op0 + 8 <= p < op0 + length :: dst[p] == dst[p - Distance(offset)]
  {
    var oend, cpy := dst.Length, op0 + length;
    var match_ := CopyFirst8(dst, op0, offset);
    DistanceIsMultiple(offset);
    first := dst[..];
    var op := op0 + 8;
    if cpy > oend - (2 * 8 - MINMATCH) {
      if cpy > oend - LASTLITERALS {
        return false, first;
      }
      CopyMatchEnd(dst, op, match_, cpy);
    } else {
      CopyWithin(dst, op, match_, 8);
      if length > 16 {
        WildCopyWithin(dst, op + 8, match_ + 8, cpy);
      }
    }
    return true, first;
  }

  /** The same, in terms of the byte-by-byte copy of the format. */
  method CopyMatchInto(dst: array<byte>, op0: nat, offset: nat, length: nat) returns (ok: bool)
    requires offset <= op0 && op0 + MFLIMIT <= dst.Length && length >= MINMATCH
    requires offset == 0 ==> forall i | op0 <= i < op0 + 4 :: dst[i] == 0
    modifies dst
    ensures ok <==> op0 + length + LASTLITERALS <= dst.Length
    ensures ok ==> dst[..op0 + length] == CopyMatch(old(dst[..op0]), offset, length)
  {
    ghost var first;
    ok, first := CopyMatchBytes(dst, op0, offset, length);
    if ok {
      assert first[..op0] == old(dst[..op0]);
      CopyFinished(first, dst[..], op0, offset, length);
      assert dst[..][..op0 + length] == dst[..op0 + length];
    }
  }

  /** Zeroes the four bytes a match starts with, so that offset 0 copies zeros. */
  method WriteZero32(dst: array<byte>, op: nat)
    requires op + 4 <= dst.Length
    modifies dst
    ensures forall i | op <= i < op + 4 :: dst[i] == 0
    ensures dst[..op] == old(dst[..op])
  {
    dst[op], dst[op + 1], dst[op + 2], dst[op + 3] := 0, 0, 0, 0;
  }

  /** The match length field, in 32 bits; false when it runs into the last bytes of the input. */
  method ReadMatchLength(src: seq<byte>, nibble: nat, ip0: nat) returns (ok: bool, length: uint32, ip: nat)
    requires ip0 < |src| && nibble < 16
    ensures var field := Field(src, nibble, ip0);
            && (ok <==> field.Some? && (nibble == ML_MASK ==> field.value.next + LASTLITERALS <= |src|))
            && (ok ==> length == Low32(field.value.length) && ip == field.value.next)
  {
    length, ip := nibble, ip0;
    if length == ML_MASK {
      hide RunUpTo, ReadRun;
      ghost var stop: nat := if |src| < 4 then 0 else |src| - LASTLITERALS + 1;
      var more, error;
      more, ip, error := ReadVariableLength(src, ip, |src| - LASTLITERALS + 1, false);
      RunStops(src, ip0, stop);
      if ReadRun(src, ip0).Some? && ReadRun(src, ip0).value.next <= stop {
        RunReached(src, ip0, stop);
      }
      if !error.Ok? {
        return false, length, ip;
      }
      CountMore(RunUpTo(src, ip0, stop).length, ML_MASK);
      length := (length + more) % U32;
      Low32IsRemainder(RunUpTo(src, ip0, stop).length + ML_MASK);
    }
    return true, length, ip;
  }

  /** What a successful copy command leaves behind. */
  ghost predicate Copied(src: seq<byte>, nibble: nat, offset: nat, ip0: nat, before: seq<byte>, ip: nat,
                         after: seq<byte>)
  {
    && offset <= |before|
    && Field(src, nibble, ip0).Some?
    && ip == Field(src, nibble, ip0).value.next < |src|
    && after == CopyMatch(before, offset, Low32(Field(src, nibble, ip0).value.length) + MINMATCH)
  }

  /** Where an output buffer lies: clear of the first 64 KiB and the last bytes of a 32-bit address space. */
  predicate Placed(address: nat, capacity: nat)
  {
    DISTANCE_MAX < address && address + capacity + 32 <= U32
  }

  /**
   From the label _copy_match on: the rest of the match length, then the copy. The source checks the end of the match
   for overflow before it adds the four bytes every match has.
   */
  method CopyMatchTail(src: seq<byte>, dst: array<byte>, address: nat, nibble: nat, offset: nat, ip0: nat, op0: nat)
    returns (status: Status, ip: nat, op: nat)
    requires Placed(address, dst.Length) && dst.Length < 0x8000_0000
    requires ip0 < |src| && op0 + MFLIMIT <= dst.Length && nibble < 16
    modifies dst
    ensures op <= dst.Length
    ensures status == CopyVerdict(src, nibble, offset, ip0, op0, dst.Length, address)
    ensures status.Continue? ==> Copied(src, nibble, offset, ip0, old(dst[..op0]), ip, dst[..op])
  {
    hide Field, CopyMatch;
    ip, op := ip0, op0;
    if op < offset {
      return Error, ip, op;
    }
    WriteZero32(dst, op);
    var ok, length;
    ok, length, ip := ReadMatchLength(src, nibble, ip0);
    if !ok {
      return Error, ip, op;
    }
    FieldNext(src, nibble, ip0);
    if nibble == ML_MASK && address + op + length >= U32 {
      return Error, ip, op;
    }
    if address + op + (length + MINMATCH) >= U32 {
      return Astray, ip, op;
    }
    ok := CopyMatchInto(dst, op, offset, length + MINMATCH);
    if !ok {
      return Error, ip, op;
    }
    op := op + (length + MINMATCH);
    status := Continue;
  }

  lemma FieldNext(src: seq<byte>, nibble: nat, ip: nat)
    requires ip < |src| && nibble < 16 && Field(src, nibble, ip).Some?
    ensures nibble < ML_MASK ==> Field(src, nibble, ip) == Some(Run(nibble, ip))
  {
  }

  /** The literal length field, in 32 bits; false when the input is too short for it. */
  method ReadLiteralLength(src: seq<byte>, nibble: nat, ip0: nat) returns (ok: bool, length: uint32, ip: nat)
    requires ip0 <= |src| && nibble < 16
    ensures var field := LiteralField(src, nibble, ip0);
            && (ok <==> field.Some?) && (ok ==> length == Low32(field.value.length) && ip == field.value.next)
    ensures ip0 <= ip <= |src|
  {
    hide RunUpTo;
    length, ip := nibble, ip0;
    if length == RUN_MASK {
      var more, error;
      more, ip, error := ReadVariableLength(src, ip, |src| - RUN_MASK, true);
      if error.InitialError? {
        return false, length, ip;
      }
      CountMore(RunUpTo(src, ip0, |src| - RUN_MASK).length, RUN_MASK);
      length := (length + more) % U32;
      Low32IsRemainder(RunUpTo(src, ip0, |src| - RUN_MASK).length + RUN_MASK);
    }
    return true, length, ip;
  }

  /** Literals followed by a successful copy command are one sequence. */
  lemma SequenceDecoded(src: seq<byte>, ip0: nat, out0: seq<byte>, ip: nat, out: seq<byte>)
    requires ip0 < |src| && Literals32(src, ip0).Some?
    requires var lit := Literals32(src, ip0).value;
             var at := lit.next + lit.length;
             && at + 2 < |src|
             && Copied(src, src[ip0] % 16, ReadLE16(src[at], src[at + 1]), at + 2, out0 + src[lit.next..at], ip, out)
    ensures DecodeSequence32(src, ip0, out0) == Next(ip, out)
  {
    hide Literals32, Field, CopyMatch, ReadLE16;
  }

  /** The literals of the sequence at ip0 end at input position at, and the output so far ends with them. */
  ghost predicate LiteralsDone(src: seq<byte>, dst: array<byte>, ip0: nat, at: nat, op1: nat, out0: seq<byte>)
    reads dst
  {
    && ip0 < at && at + 2 < |src| && op1 <= dst.Length
    && Literals32(src, ip0).Some?
    && var lit := Literals32(src, ip0).value;
       at == lit.next + lit.length && dst[..op1] == out0 + src[lit.next..at]
  }

  /** The copy command behind the literals of the sequence at ip0, on its general path. */
  method CopyCommand(src: seq<byte>, dst: array<byte>, address: nat, ip0: nat, at: nat, op1: nat, ghost out0: seq<byte>)
    returns (status: Status, ip: nat, op: nat)
    requires Placed(address, dst.Length) && dst.Length < 0x8000_0000
    requires LiteralsDone(src, dst, ip0, at, op1, out0) && op1 + MFLIMIT <= dst.Length
    modifies dst
    ensures op <= dst.Length
    ensures status == CopyVerdict(src, src[ip0] % 16, ReadLE16(src[at], src[at + 1]), at + 2, op1, dst.Length, address)
    ensures status.Continue? ==> DecodeSequence32(src, ip0, out0) == Next(ip, dst[..op]) && ip < |src|
  {
    hide Literals32, ReadLE16, CopyVerdict, DecodeSequence32;
    status, ip, op :=
      CopyMatchTail(src, dst, address, src[ip0] % 16, ReadLE16(src[at], src[at + 1]), at + 2, op1);
    if status.Continue? {
      SequenceDecoded(src, ip0, out0, ip, dst[..op]);
    }
  }

  lemma ShortSequenceDecoded(src: seq<byte>, ip0: nat, at: nat, out0: seq<byte>, out: seq<byte>)
    requires ip0 < |src| && src[ip0] / 16 != RUN_MASK && src[ip0] % 16 != ML_MASK
    requires at == ip0 + 1 + src[ip0] / 16 && at + 2 < |src|
    requires var offset := ReadLE16(src[at], src[at + 1]);
             var out1 := out0 + src[ip0 + 1..at];
             offset <= |out1| && out == CopyMatch(out1, offset, src[ip0] % 16 + MINMATCH)
    ensures DecodeSequence32(src, ip0, out0) == Next(at + 2, out)
  {
    hide CopyMatch, ReadLE16, RunUpTo, ReadRun;
    assert Literals32(src, ip0) == Some(Run(src[ip0] / 16, ip0 + 1));
  }

  lemma VerdictOnShortcut(src: seq<byte>, ip0: nat, op0: nat, capacity: nat, address: nat)
    requires ip0 < |src| && ShortcutEntered(src, ip0, op0, capacity)
    ensures Literals32(src, ip0) == Some(Run(src[ip0] / 16, ip0 + 1))
    ensures var at, op := ip0 + 1 + src[ip0] / 16, op0 + src[ip0] / 16;
            && at + 2 < |src|
            && var nibble, offset := src[ip0] % 16, ReadLE16(src[at], src[at + 1]);
               SequenceVerdict(src, ip0, op0, capacity, address)
               == if nibble != ML_MASK && 8 <= offset <= op then Continue
                  else CopyVerdict(src, nibble, offset, at + 2, op, capacity, address)
  {
    hide CopyVerdict, ReadLE16, RunUpTo;
  }

  /** The shortcut: up to 14 literals and a short match are copied in fixed-size pieces. */
  method Shortcut(src: seq<byte>, dst: array<byte>, address: nat, ip0: nat, op0: nat)
    returns (status: Status, ip: nat, op: nat)
    requires Placed(address, dst.Length) && dst.Length < 0x8000_0000
    requires ip0 < |src| && ShortcutEntered(src, ip0, op0, dst.Length)
    modifies dst
    ensures op <= dst.Length && status == SequenceVerdict(src, ip0, op0, dst.Length, address)
    ensures !status.Done?
    ensures status.Continue? ==> DecodeSequence32(src, ip0, old(dst[..op0])) == Next(ip, dst[..op]) && ip < |src|
  {
    hide Literals32, ReadLE16, CopyVerdict, DecodeSequence32, SequenceVerdict, CopyMatch;
    VerdictOnShortcut(src, ip0, op0, dst.Length, address);
    var token: nat := src[ip0];
    var length := token / 16;
    ip, op := ip0 + 1, op0;
    ghost var out0 := dst[..op0];
    CopyShortLiterals(dst, op, src, ip, length);
    op, ip := op + length, ip + length;
    assert LiteralsDone(src, dst, ip0, ip, op, out0);
    length := token % 16;
    var offset := ReadLE16(src[ip], src[ip + 1]);
    if length != ML_MASK && offset >= 8 && offset <= op {
      CopyShortMatch(dst, op, offset, length + MINMATCH);
      ShortSequenceDecoded(src, ip0, ip, out0, dst[..op + length + MINMATCH]);
      op, ip := op + length + MINMATCH, ip + 2;
      return Continue, ip, op;
    }
    status, ip, op := CopyCommand(src, dst, address, ip0, ip, op, out0);
    assert !status.Done? by {
      NeverDone(src, src[ip0] % 16, offset, ip0 + 1 + token / 16 + 2, op0 + token / 16, dst.Length, address);
    }
  }

  lemma NeverDone(src: seq<byte>, nibble: nat, offset: nat, ip: nat, op: nat, capacity: nat, address: nat)
    ensures !CopyVerdict(src, nibble, offset, ip, op, capacity, address).Done?
  {
  }

  /** Copies sixteen bytes on behalf of fewer literals. */
  method CopyShortLiterals(dst: array<byte>, op: nat, src: seq<byte>, ip: nat, length: nat)
    requires op + 16 <= dst.Length && ip + 16 <= |src| && length < 16
    modifies dst
    ensures dst[..op + length] == old(dst[..op]) + src[ip..ip + length]
  {
    CopyIn(dst, op, src, ip, 16);
  }

  /** The 18-byte copy of the shortcut. */
  method CopyShortMatch(dst: array<byte>, op: nat, offset: nat, length: nat)
    requires 8 <= offset <= op && op + 18 <= dst.Length && length <= 18
    modifies dst
    ensures dst[..op + length] == CopyMatch(old(dst[..op]), offset, length)
  {
    var m := op - offset;
    CopyWithin(dst, op, m, 8);
    CopyWithin(dst, op + 8, m + 8, 8);
    CopyWithin(dst, op + 16, m + 16, 2);
    assert Replays(dst[..], op, op + 18, offset);
    assert dst[..][..op] == old(dst[..op]);
    ReplaysIsCopyMatch(dst[..], op, offset, length);
  }

  /** The literals that end the block. */
  method CopyLastLiterals(src: seq<byte>, dst: array<byte>, op: nat, ip: nat)
    requires ip <= |src| && op + (|src| - ip) <= dst.Length
    modifies dst
    ensures dst[..op + (|src| - ip)] == old(dst[..op]) + src[ip..]
  {
    CopyIn(dst, op, src, ip, |src| - ip);
  }

  lemma VerdictOnLong(src: seq<byte>, ip0: nat, op0: nat, capacity: nat, address: nat)
    requires ip0 < |src| && !ShortcutEntered(src, ip0, op0, capacity)
    ensures Literals32(src, ip0).None? ==> SequenceVerdict(src, ip0, op0, capacity, address) == Error
    ensures Literals32(src, ip0).Some? ==>
              var at, op := Literals32(src, ip0).value.next + Literals32(src, ip0).value.length,
                            op0 + Literals32(src, ip0).value.length;
              SequenceVerdict(src, ip0, op0, capacity, address)
              == if at + 8 > |src| || op + MFLIMIT > capacity then if at == |src| && op <= capacity then Done else Error
                 else CopyVerdict(src, src[ip0] % 16, ReadLE16(src[at], src[at + 1]), at + 2, op, capacity, address)
  {
    hide Literals32, CopyVerdict, ReadLE16;
  }

  /** The literals of a sequence, as the length field was read. */
  lemma LiteralsRead(src: seq<byte>, ip0: nat)
    requires ip0 < |src|
    ensures var field := LiteralField(src, src[ip0] / 16, ip0 + 1);
            Literals32(src, ip0)
            == if field.Some? && field.value.next + Low32(field.value.length) <= |src|
               then Some(Run(Low32(field.value.length), field.value.next)) else None
  {
    hide LiteralField;
  }

  lemma LastDecoded(src: seq<byte>, ip0: nat, out0: seq<byte>)
    requires ip0 < |src| && Literals32(src, ip0).Some?
    requires Literals32(src, ip0).value.next + Literals32(src, ip0).value.length == |src|
    ensures DecodeSequence32(src, ip0, out0) == Last(out0 + src[Literals32(src, ip0).value.next..])
  {
    hide Literals32;
    assert src[Literals32(src, ip0).value.next..|src|] == src[Literals32(src, ip0).value.next..];
  }

  /**
   The general path: literals of any length, then either the end of the block or a copy command. The overflow checks
   of the source behind a long literal length never decide: what they refuse is longer than both buffers.
   */
  method LongSequence(src: seq<byte>, dst: array<byte>, address: nat, ip0: nat, op0: nat)
    returns (status: Status, ip: nat, op: nat)
    requires Placed(address, dst.Length) && dst.Length < 0x8000_0000
    requires ip0 < |src| && op0 <= dst.Length && !ShortcutEntered(src, ip0, op0, dst.Length)
    modifies dst
    ensures op <= dst.Length && status == SequenceVerdict(src, ip0, op0, dst.Length, address)
    ensures status.Continue? ==> DecodeSequence32(src, ip0, old(dst[..op0])) == Next(ip, dst[..op]) && ip < |src|
    ensures status.Done? ==> DecodeSequence32(src, ip0, old(dst[..op0])) == Last(dst[..op])
  {
    hide Literals32, LiteralField, ReadLE16, CopyVerdict, DecodeSequence32, SequenceVerdict;
    VerdictOnLong(src, ip0, op0, dst.Length, address);
    LiteralsRead(src, ip0);
    var token: nat := src[ip0];
    var ok, length;
    ip, op := ip0 + 1, op0;
    ok, length, ip := ReadLiteralLength(src, token / 16, ip);
    if !ok {
      return Error, ip, op;
    }
    var cpy := op + length;
    if cpy > dst.Length - MFLIMIT || ip + length > |src| - (2 + 1 + LASTLITERALS) {
      if ip + length != |src| || cpy > dst.Length {
        return Error, ip, op;
      }
      LastDecoded(src, ip0, dst[..op0]);
      CopyLastLiterals(src, dst, op, ip);
      return Done, ip + length, cpy;
    }
    ghost var out0 := dst[..op0];
    WildCopyIn(dst, op, src, ip, length);
    ip, op := ip + length, cpy;
    assert LiteralsDone(src, dst, ip0, ip, op, out0);
    ghost var at, op1 := ip, op;
    status, ip, op := CopyCommand(src, dst, address, ip0, ip, op, out0);
    NeverDone(src, src[ip0] % 16, ReadLE16(src[at], src[at + 1]), at + 2, op1, dst.Length, address);
  }

  // ----- whole blocks -----

  /** One iteration of the main loop. */
  method DecodeOne(src: seq<byte>, dst: array<byte>, address: nat, ip0: nat, op0: nat)
    returns (status: Status, ip: nat, op: nat)
    requires Placed(address, dst.Length) && dst.Length < 0x8000_0000
    requires ip0 < |src| && op0 <= dst.Length
    modifies dst
    ensures op <= dst.Length && status == SequenceVerdict(src, ip0, op0, dst.Length, address)
    ensures status.Continue? ==> DecodeSequence32(src, ip0, old(dst[..op0])) == Next(ip, dst[..op]) && ip < |src|
    ensures status.Done? ==> DecodeSequence32(src, ip0, old(dst[..op0])) == Last(dst[..op])
  {
    hide DecodeSequence32, SequenceVerdict;
    if src[ip0] / 16 != RUN_MASK && ip0 + 1 < |src| - 14 - 2 && op0 <= dst.Length - 14 - 18 {
      status, ip, op := Shortcut(src, dst, address, ip0, op0);
    } else {
      status, ip, op := LongSequence(src, dst, address, ip0, op0);
    }
  }

  /** The verdict on a block is the verdict on what follows a sequence. */
  lemma VerdictNext(src: seq<byte>, ip: nat, out: seq<byte>, capacity: nat, address: nat)
    requires ip < |src| && SequenceVerdict(src, ip, |out|, capacity, address) == Continue
    requires DecodeSequence32(src, ip, out).Next?
    ensures var step := DecodeSequence32(src, ip, out);
            Verdict(src, ip, |out|, capacity, address) == Verdict(src, step.ip, |step.out|, capacity, address)
  {
    hide Literals32, Match32, SequenceVerdict;
  }

  lemma VerdictHere(src: seq<byte>, ip: nat, pos: nat, capacity: nat, address: nat)
    requires ip < |src| && SequenceVerdict(src, ip, pos, capacity, address) != Continue
    ensures Verdict(src, ip, pos, capacity, address) == SequenceVerdict(src, ip, pos, capacity, address)
  {
    hide SequenceVerdict;
  }

  datatype Outcome = Returns(value: int) | Lost

  /**
   Decompresses src into dst, whose length is the capacity and which lies at an address. The verdict on the block says
   what happens: a non-negative result is the number of bytes decoded, and they are what the block means to 32-bit
   counters, which is what it means to the format exactly when no length field wraps; a negative result is an error;
   and a match whose end lies behind the last address makes the source lose its output cursor.
   */
  method DecompressSafe(src: seq<byte>, dst: array<byte>, address: nat) returns (result: Outcome)
    requires |src| < 0x8000_0000 && dst.Length < 0x8000_0000 && Placed(address, dst.Length)
    modifies dst
    ensures var verdict := BlockVerdict(src, dst.Length, address);
            && verdict != Continue
            && (verdict == Done <==> result.Returns? && result.value >= 0)
            && (verdict == Error <==> result.Returns? && result.value < 0)
            && (verdict == Astray <==> result == Lost)
    ensures result == Lost <==> !NoEndWraps(src, 0, 0, dst.Length, address)
    ensures result.Returns? && result.value >= 0 ==>
              && result.value <= dst.Length && Decode32(src, 0, []) == Some(dst[..result.value])
              && (Decode(src, 0, []) == Some(dst[..result.value]) <==> NoFieldWraps(src, 0))
  {
    hide DecodeSequence32, SequenceVerdict, Decode, NoFieldWraps, NoEndWraps;
    BlockAstrayExactly(src, dst.Length, address);
    if dst.Length == 0 {
      if |src| == 1 && src[0] == 0 {
        assert src == [0];
        EmptyBlock();
        AgreesExactly(src, 0, []);
        return Returns(0);
      }
      return Returns(-1);
    }
    if |src| == 0 {
      return Returns(-1);
    }
    var status, ip: nat, op: nat := Continue, 0, 0;
    assert dst[..0] == [];
    while status.Continue?
      invariant op <= dst.Length
      invariant status.Continue? ==>
                  && ip < |src| && Decode32(src, ip, dst[..op]) == Decode32(src, 0, [])
                  && Verdict(src, ip, op, dst.Length, address) == Verdict(src, 0, 0, dst.Length, address)
      invariant !status.Continue? ==> Verdict(src, 0, 0, dst.Length, address) == status
      invariant status.Done? ==> Decode32(src, 0, []) == Some(dst[..op])
      decreases status.Continue?, |src| - ip
    {
      ghost var ip0, out0 := ip, dst[..op];
      status, ip, op := DecodeOne(src, dst, address, ip, op);
      if status.Continue? {
        VerdictNext(src, ip0, out0, dst.Length, address);
      } else {
        VerdictHere(src, ip0, |out0|, dst.Length, address);
      }
    }
    if status.Done? {
      AgreesExactly(src, 0, []);
      return Returns(op);
    }
    if status.Astray? {
      return Lost;
    }
    result := Returns(-1 - ip);
  }

  lemma EmptyBlock()
    ensures Decode32([0], 0, []) == Some([])
  {
    assert Literals32([0], 0) == Some(Run(0, 1));
  }
}
