/**
 The LZ4 block format: a decoder that works one byte at a time, an encoder of whole blocks, and the
 end-of-block restrictions.  Both halves of the codec are proved against these definitions.
 */
module Lz4Format {
  import opened Bytes

  const MINMATCH := 4
  const LASTLITERALS := 5
  const MFLIMIT := 12
  const RUN_MASK := 15
  const ML_MASK := 15
  const DISTANCE_MAX := 65535
  const MAX_INPUT_SIZE := 0x7E000000

  // ----- reading -----

  /** A length read from a block, and the position of the byte behind it. */
  datatype Run = Run(length: nat, next: nat)

  /** The bytes of a length extension are summed up to and including the first one below 255. */
  function ReadRun(src: seq<byte>, ip: nat): (r: Option<Run>)
    ensures r.Some? ==> ip < r.value.next <= |src|
    decreases |src| - ip
  {
    if ip >= |src| then None
    else if src[ip] < 255 then Some(Run(src[ip], ip + 1))
    else
      match ReadRun(src, ip + 1)
      case None => None
      case Some(run) => Some(Run(255 + run.length, run.next))
  }

  /** A length whose first four bits are in the token. */
  function Field(src: seq<byte>, nibble: nat, ip: nat): (r: Option<Run>)
    ensures r.Some? ==> ip <= r.value.next && (ip <= |src| ==> r.value.next <= |src|)
  {
    if nibble < 15 then Some(Run(nibble, ip))
    else
      match ReadRun(src, ip)
      case None => None
      case Some(run) => Some(Run(15 + run.length, run.next))
  }

  /** The literals announced by the token at ip: how many, and where they start. */
  function Literals(src: seq<byte>, ip: nat): (r: Option<Run>)
    requires ip < |src|
    ensures r.Some? ==> ip < r.value.next && r.value.next + r.value.length <= |src|
  {
    match Field(src, src[ip] / 16, ip + 1)
    case None => None
    case Some(run) => if run.next + run.length <= |src| then Some(run) else None
  }

  function ReadLE16(lo: byte, hi: byte): (r: nat)
  {
    var h: int := hi;
    lo + 256 * h
  }

  datatype Copy = Copy(offset: nat, length: nat, next: nat)

  /** The copy command behind the literals: a little-endian offset, then the rest of the length. */
  function Match(src: seq<byte>, nibble: nat, at: nat): (r: Option<Copy>)
    ensures r.Some? ==> at < r.value.next <= |src| && r.value.length >= MINMATCH
  {
    if at + 2 > |src| then None
    else
      match Field(src, nibble, at + 2)
      case None => None
      case Some(run) => Some(Copy(ReadLE16(src[at], src[at + 1]), run.length + MINMATCH, run.next))
  }

  /** Byte-by-byte copy of earlier output; offset 0 is not a valid offset and yields zero bytes. */
  function CopyMatch(out: seq<byte>, offset: nat, length: nat): (r: seq<byte>)
    requires offset <= |out|
    ensures |r| == |out| + length
    decreases length
  {
    if length == 0 then out
    else CopyMatch(out + [if offset == 0 then 0 else out[|out| - offset]], offset, length - 1)
  }

  /** From op to hi every byte repeats the one offset bytes before it. */
  ghost predicate Replays(s: seq<byte>, op: nat, hi: nat, offset: nat)
    requires hi <= |s| && offset <= op
  {
    forall p | op <= p < hi :: s[p] == if offset == 0 then 0 else s[p - offset]
  }

  lemma {:induction false} ReplaysIsCopyMatch(s: seq<byte>, op: nat, offset: nat, n: nat)
    requires offset <= op && op + n <= |s| && Replays(s, op, op + n, offset)
    ensures s[..op + n] == CopyMatch(s[..op], offset, n)
    decreases n
  {
    if n > 0 {
      assert s[..op] + [s[op]] == s[..op + 1];
      ReplaysIsCopyMatch(s, op + 1, offset, n - 1);
    }
  }

  datatype Step = Bad | Last(out: seq<byte>) | Next(ip: nat, out: seq<byte>)

  /** One sequence: a token, literals and, unless the input ends there, a copy command. */
  function DecodeSequence(src: seq<byte>, ip: nat, out: seq<byte>): (r: Step)
    ensures r.Next? ==> ip < r.ip <= |src|
  {
    if ip >= |src| then Bad
    else
      match Literals(src, ip)
      case None => Bad
      case Some(lit) =>
        var at := lit.next + lit.length;
        var out1 := out + src[lit.next..at];
        if at == |src| then Last(out1)
        else
          match Match(src, src[ip] % 16, at)
          case None => Bad
          case Some(c) =>
            if c.offset > |out1| then Bad else Next(c.next, CopyMatch(out1, c.offset, c.length))
  }

  /** The meaning of a block, or None when its input is not consumed exactly. */
  function Decode(src: seq<byte>, ip: nat, out: seq<byte>): (r: Option<seq<byte>>)
    decreases |src| - ip
  {
    match DecodeSequence(src, ip, out)
    case Bad => None
    case Last(out1) => Some(out1)
    case Next(ip1, out1) => Decode(src, ip1, out1)
  }

  /**
   The end-of-block restrictions, for a block whose output has length total: the last five bytes are
   literals, the last match starts at least twelve bytes before the end, and offsets are in range.
   */
  predicate Conforms(src: seq<byte>, ip: nat, pos: nat, total: nat)
    decreases |src| - ip
  {
    ip < |src| &&
    match Literals(src, ip)
    case None => false
    case Some(lit) =>
      var at := lit.next + lit.length;
      var pos1 := pos + lit.length;
      if at == |src| then
        pos1 == total && (pos > 0 ==> lit.length >= LASTLITERALS)
      else
        match Match(src, src[ip] % 16, at)
        case None => false
        case Some(c) =>
          && 1 <= c.offset <= pos1
          && pos1 + MFLIMIT <= total
          && pos1 + c.length + LASTLITERALS <= total
          && Conforms(src, c.next, pos1 + c.length, total)
  }

  /** Behind a match there is room for a token and five literals. */
  lemma {:induction false} ConformsMargin(src: seq<byte>, ip: nat, pos: nat, total: nat)
    requires pos > 0 && Conforms(src, ip, pos, total)
    ensures ip + 6 <= |src|
    decreases |src| - ip
  {
    var lit := Literals(src, ip).value;
    var at := lit.next + lit.length;
    if at < |src| {
      var c := Match(src, src[ip] % 16, at).value;
      ConformsMargin(src, c.next, pos + lit.length + c.length, total);
    }
  }

  /** A conforming block decodes, to as many bytes as it was said to. */
  lemma {:induction false} ConformsDecodes(src: seq<byte>, ip: nat, out: seq<byte>, total: nat)
    requires Conforms(src, ip, |out|, total)
    ensures Decode(src, ip, out).Some? && |Decode(src, ip, out).value| == total
    decreases |src| - ip
  {
    var lit := Literals(src, ip).value;
    var at := lit.next + lit.length;
    if at < |src| {
      var c := Match(src, src[ip] % 16, at).value;
      var out1 := out + src[lit.next..at];
      ConformsDecodes(src, c.next, CopyMatch(out1, c.offset, c.length), total);
    }
  }
}
