/** Matches whose end lies behind the last address: exactly when the decoder meets one, and blocks that have one. */
module Lz4Astray {
  import opened Bytes
  import opened Lz4Format
  import opened Lz4Counters

  /** Only when buffer and input together are that large can the end of a match lie behind the last address. */
  lemma {:induction false} AstrayNeeds(src: seq<byte>, ip: nat, pos: nat, capacity: nat, address: nat)
    requires Verdict(src, ip, pos, capacity, address) == Astray && pos <= capacity
    ensures address + capacity + 255 * |src| + 15 + MINMATCH >= U32
    decreases |src| - ip
  {
    hide Literals32, Match32, SequenceVerdict;
    var status := SequenceVerdict(src, ip, pos, capacity, address);
    if status == Astray {
      AstrayCopy(src, ip, pos, capacity, address);
    } else {
      ContinuesWithMatch(src, ip, pos, capacity, address);
      ContinueFits(src, ip, pos, capacity, address);
      var lit := Literals32(src, ip).value;
      var c := Match32(src, src[ip] % 16, lit.next + lit.length).value;
      AstrayNeeds(src, c.next, pos + lit.length + c.length, capacity, address);
    }
  }

  lemma AstrayCopy(src: seq<byte>, ip: nat, pos: nat, capacity: nat, address: nat)
    requires ip < |src| && pos <= capacity && SequenceVerdict(src, ip, pos, capacity, address) == Astray
    ensures address + capacity + 255 * |src| + 15 + MINMATCH >= U32
  {
    hide Literals32, LiteralField, ReadLE16, ReadRun;
    var lit := Literals32(src, ip).value;
    if ShortcutEntered(src, ip, pos, capacity) {
      ShortLiterals(src, ip);
    }
    var at, nibble := lit.next + lit.length, src[ip] % 16;
    if nibble == ML_MASK && ReadRun(src, at + 2).Some? {
      FieldSize(src, at + 2);
    }
  }

  /** Literals and a copy command behind them, with the room at the ends of input and output that a copy takes. */
  predicate CopyRead(src: seq<byte>, ip: nat, pos: nat, capacity: nat)
  {
    && ip < |src| && Literals32(src, ip).Some?
    && var lit := Literals32(src, ip).value;
       var at, op := lit.next + lit.length, pos + lit.length;
       && at + 8 <= |src| && op + MFLIMIT <= capacity && Match32(src, src[ip] % 16, at).Some?
       && var c := Match32(src, src[ip] % 16, at).value;
          c.offset <= op && (src[ip] % 16 == ML_MASK ==> c.next + LASTLITERALS <= |src|)
  }

  /** That copy command: offset, length and where the next sequence starts. */
  function CopyOf(src: seq<byte>, ip: nat, pos: nat, capacity: nat): (c: Copy)
    requires CopyRead(src, ip, pos, capacity)
    ensures ip < c.next <= |src|
  {
    var lit := Literals32(src, ip).value;
    Match32(src, src[ip] % 16, lit.next + lit.length).value
  }

  /** Where its match ends in the output. */
  function EndOf(src: seq<byte>, ip: nat, pos: nat, capacity: nat): nat
    requires CopyRead(src, ip, pos, capacity)
  {
    pos + Literals32(src, ip).value.length + CopyOf(src, ip, pos, capacity).length
  }

  /** No match that is reached, through matches that leave room for the last literals, ends on the first addresses. */
  predicate NoEndWraps(src: seq<byte>, ip: nat, pos: nat, capacity: nat, address: nat)
    decreases |src| - ip
  {
    CopyRead(src, ip, pos, capacity) ==>
      var end := EndOf(src, ip, pos, capacity);
      && !(U32 <= address + end < U32 + MINMATCH)
      && (end + LASTLITERALS <= capacity ==>
            NoEndWraps(src, CopyOf(src, ip, pos, capacity).next, end, capacity, address))
  }

  /** Too close to an end for another copy. */
  predicate NearEnd(src: seq<byte>, ip: nat, pos: nat, capacity: nat)
  {
    ip + 9 > |src| || pos + MFLIMIT > capacity
  }

  lemma NearEndNotAstray(src: seq<byte>, ip: nat, pos: nat, capacity: nat, address: nat)
    requires NearEnd(src, ip, pos, capacity)
    ensures Verdict(src, ip, pos, capacity, address) in {Done, Error}
  {
    hide LiteralField, CopyVerdict;
  }

  /** A copy command with the room it takes: astray, continued or refused by where its match ends. */
  lemma CopyReadVerdict(src: seq<byte>, ip: nat, pos: nat, capacity: nat, address: nat)
    requires CopyRead(src, ip, pos, capacity) && address + capacity + 32 <= U32
    ensures var status, end := SequenceVerdict(src, ip, pos, capacity, address), EndOf(src, ip, pos, capacity);
            && (status == Astray <==> U32 <= address + end < U32 + MINMATCH)
            && (end + LASTLITERALS <= capacity ==> status == Continue)
  {
    hide RunUpTo, ReadRun, ReadLE16;
  }

  /** Without that room nothing goes astray; a short match of the shortcut may be the last one. */
  lemma NoCopyVerdict(src: seq<byte>, ip: nat, pos: nat, capacity: nat, address: nat)
    requires ip < |src| && !CopyRead(src, ip, pos, capacity) && address + capacity + 32 <= U32
    ensures var status := SequenceVerdict(src, ip, pos, capacity, address);
            && status != Astray
            && (status == Continue ==>
                  && Literals32(src, ip).Some?
                  && var at := Literals32(src, ip).value.next + Literals32(src, ip).value.length;
                     && Match32(src, src[ip] % 16, at).Some?
                     && Match32(src, src[ip] % 16, at).value.next + 9 > |src|)
  {
    hide RunUpTo, ReadRun, ReadLE16;
  }

  /** The decoder goes astray exactly when a match that is reached ends on one of the first four addresses. */
  lemma {:induction false} AstrayExactly(src: seq<byte>, ip: nat, pos: nat, capacity: nat, address: nat)
    requires address + capacity + 32 <= U32
    ensures Verdict(src, ip, pos, capacity, address) == Astray <==> !NoEndWraps(src, ip, pos, capacity, address)
    decreases |src| - ip
  {
    hide Literals32, Match32, SequenceVerdict, CopyRead;
    if CopyRead(src, ip, pos, capacity) {
      CopyReadVerdict(src, ip, pos, capacity, address);
      CopyReadIs(src, ip, pos, capacity);
      var end := EndOf(src, ip, pos, capacity);
      AstrayExactly(src, CopyOf(src, ip, pos, capacity).next, end, capacity, address);
      if end + LASTLITERALS > capacity {
        NearEndNotAstray(src, CopyOf(src, ip, pos, capacity).next, end, capacity, address);
      }
    } else if ip < |src| {
      NoCopyVerdict(src, ip, pos, capacity, address);
      if SequenceVerdict(src, ip, pos, capacity, address) == Continue {
        var lit := Literals32(src, ip).value;
        var c := Match32(src, src[ip] % 16, lit.next + lit.length).value;
        NearEndNotAstray(src, c.next, pos + lit.length + c.length, capacity, address);
      }
    }
  }

  lemma CopyReadIs(src: seq<byte>, ip: nat, pos: nat, capacity: nat)
    requires CopyRead(src, ip, pos, capacity)
    ensures ip < |src| && Literals32(src, ip).Some?
  {
    hide Literals32, Match32;
  }

  /** Into an empty buffer nothing is copied. */
  lemma BlockAstrayExactly(src: seq<byte>, capacity: nat, address: nat)
    requires address + capacity + 32 <= U32
    ensures BlockVerdict(src, capacity, address) == Astray <==> !NoEndWraps(src, 0, 0, capacity, address)
  {
    hide Verdict, Literals32, Match32;
    AstrayExactly(src, 0, 0, capacity, address);
  }

  // ----- a block that leads astray -----

  /** One literal, and a match of that byte whose length takes the cursor to the last four addresses. */
  function AstrayBlock(address: nat): (src: seq<byte>)
    requires address + 20 <= U32
    ensures |src| == 10 + (U32 - 20 - address) / 255
  {
    var more := U32 - 20 - address;
    [0x1F, 7, 1, 0] + seq(more / 255, _ => 255) + [more % 255, 0, 0, 0, 0, 0]
  }

  /** How its parts are read. */
  lemma AstrayBlockReads(address: nat)
    requires address + 20 <= U32
    ensures var src, more := AstrayBlock(address), U32 - 20 - address;
            && src[0] == 0x1F && src[2] == 1 && src[3] == 0
            && ReadRun(src, 4) == Some(Run(more, 5 + more / 255))
  {
    var src, more := AstrayBlock(address), U32 - 20 - address;
    var n := more / 255;
    hide RunUpTo, ReadRun;
    assert src[4 + n] == more % 255 && forall i | 4 <= i < 4 + n :: src[i] == 255;
    RunOf255s(src, 4, n, |src|);
    RunStops(src, 4, |src|);
  }

  /** Wherever the output buffer lies, there is a block that leads astray; ten bytes are enough at the upper end. */
  lemma AstrayIsReached(capacity: nat, address: nat)
    requires capacity >= 13 && address + capacity + 32 <= U32
    ensures BlockVerdict(AstrayBlock(address), capacity, address) == Astray
  {
    hide ReadRun, AstrayBlock;
    AstrayBlockReads(address);
    var src, more := AstrayBlock(address), U32 - 20 - address;
    assert Literals32(src, 0) == Some(Run(1, 1));
    assert Field(src, 15, 4) == Some(Run(15 + more, 5 + more / 255));
    AstrayFirst(src, 15 + more, 5 + more / 255, capacity, address);
  }

  lemma AstrayFirst(src: seq<byte>, length: nat, next: nat, capacity: nat, address: nat)
    requires |src| >= 10 && src[0] == 0x1F && src[2] == 1 && src[3] == 0 && capacity >= 13
    requires Literals32(src, 0) == Some(Run(1, 1)) && Field(src, 15, 4) == Some(Run(length, next))
    requires next + LASTLITERALS <= |src| && address + 1 + length == U32 - 4
    ensures BlockVerdict(src, capacity, address) == Astray
  {
    hide Literals32, Field;
    assert CopyVerdict(src, 15, 1, 4, 1, capacity, address) == Astray;
    assert SequenceVerdict(src, 0, 0, capacity, address) == Astray;
  }
}
