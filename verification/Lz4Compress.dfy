/**
 The block compressor as this program instantiates it: the output buffer is at least as large as the compression
 bound, and there is no dictionary.  Positions stand for pointers; a table entry for the null pointer is the
 position of address 0, which lies more than DISTANCE_MAX before the input.
 */
module Lz4Compress {
  import opened Bytes
  import opened Lz4Format
  import opened Lz4Blocks
  import opened Lz4Memory
  import opened Lz4Parse

  const LIMIT_64K := 64 * 1024 + MFLIMIT - 1

  /** Room for n input bytes in the worst case, 0 for an unsupported size. */
  function CompressBound(n: nat): nat
  {
    if n > MAX_INPUT_SIZE then 0 else n + n / 255 + 16
  }

  // ----- counting equal bytes -----

  /** Number of low-order bytes two different words share; the source counts the trailing zeros of their xor. */
  function NbCommonBytes(a: uint32, b: uint32): nat
  {
    if a % 0x100 != b % 0x100 then 0
    else if a / 0x100 % 0x100 != b / 0x100 % 0x100 then 1
    else if a / 0x1_0000 % 0x100 != b / 0x1_0000 % 0x100 then 2
    else 3
  }

  lemma WordBytes(src: seq<byte>, p: nat)
    requires p + 4 <= |src|
    ensures var w := Read32(src, p);
            && w % 0x100 == src[p] && w / 0x100 % 0x100 == src[p + 1]
            && w / 0x1_0000 % 0x100 == src[p + 2] && w / 0x100_0000 == src[p + 3]
  {
    var w: int := Read32(src, p);
    var b1: int, b2: int, b3: int := src[p + 1], src[p + 2], src[p + 3];
    assert w / 0x100 == b1 + 0x100 * b2 + 0x1_0000 * b3;
    assert w / 0x1_0000 == b2 + 0x100 * b3;
  }

  lemma SameWords(src: seq<byte>, p: nat, q: nat)
    requires p + 4 <= |src| && q + 4 <= |src|
    ensures Read32(src, p) == Read32(src, q) <==> SameBytes(src, p, q, 4)
    ensures Read32(src, p) != Read32(src, q) ==>
              var k := NbCommonBytes(Read32(src, p), Read32(src, q));
              k < 4 && SameBytes(src, p, q, k) && src[p + k] != src[q + k]
  {
    WordBytes(src, p);
    WordBytes(src, q);
    if SameBytes(src, p, q, 4) {
      assert src[p] == src[p - p + q] && src[p + 1] == src[p + 1 - p + q];
      assert src[p + 2] == src[p + 2 - p + q] && src[p + 3] == src[p + 3 - p + q];
    }
  }

  /** Length of the longest common prefix of what starts at pMatch and at pIn, the latter ending at limit. */
  ghost predicate IsCommonLength(src: seq<byte>, pIn: nat, pMatch: nat, limit: nat, n: nat)
    requires pMatch <= pIn && limit <= |src|
  {
    && pIn + n <= limit
    && SameBytes(src, pIn, pMatch, n)
    && (pIn + n < limit ==> src[pIn + n] != src[pMatch + n])
  }

  lemma {:induction false} CommonIs(src: seq<byte>, pIn: nat, pMatch: nat, limit: nat, n: nat)
    requires pMatch < pIn <= limit <= |src| && IsCommonLength(src, pIn, pMatch, limit, n)
    ensures n == CommonLength(src, pIn, pMatch, limit)
    decreases n
  {
    if n > 0 {
      assert src[pIn] == src[pIn - pIn + pMatch];
      assert forall i | pIn + 1 <= i < pIn + n :: src[i] == src[i - (pIn + 1) + (pMatch + 1)];
      CommonIs(src, pIn + 1, pMatch + 1, limit, n - 1);
    }
  }

  /** Four bytes at a time, then two, then one. */
  method Count(src: seq<byte>, pIn0: nat, pMatch0: nat, limit: nat) returns (n: nat)
    requires pMatch0 < pIn0 <= limit <= |src|
    ensures IsCommonLength(src, pIn0, pMatch0, limit, n)
  {
    hide Read32, NbCommonBytes;
    var pIn, pMatch := pIn0, pMatch0;
    while pIn < limit - 3
      invariant pIn0 <= pIn <= limit && pIn - pMatch == pIn0 - pMatch0
      invariant SameBytes(src, pIn0, pMatch0, pIn - pIn0)
    {
      SameWords(src, pIn, pMatch);
      if Read32(src, pMatch) != Read32(src, pIn) {
        pIn := pIn + NbCommonBytes(Read32(src, pIn), Read32(src, pMatch));
        return pIn - pIn0;
      }
      pIn, pMatch := pIn + 4, pMatch + 4;
    }
    var rest := CountRest(src, pIn, pMatch, limit);
    return pIn + rest - pIn0;
  }

  /** The last three bytes at most: two bytes, then one. */
  method CountRest(src: seq<byte>, pIn0: nat, pMatch0: nat, limit: nat) returns (n: nat)
    requires pMatch0 < pIn0 <= limit <= |src| && limit <= pIn0 + 3
    ensures IsCommonLength(src, pIn0, pMatch0, limit, n)
  {
    var pIn, pMatch := pIn0, pMatch0;
    if pIn < limit - 1 && src[pMatch] == src[pIn] && src[pMatch + 1] == src[pIn + 1] {
      pIn, pMatch := pIn + 2, pMatch + 2;
    }
    if pIn < limit && src[pMatch] == src[pIn] {
      pIn := pIn + 1;
    }
    return pIn - pIn0;
  }

  // ----- the hash table -----

  datatype TableType = ByU16 | ByU32 | ByPtr

  /** Every table entry is a position before ip, or the null pointer of a pointer table. */
  ghost predicate TableBefore(table: seq<int>, kind: TableType, ip: int)
  {
    forall h | 0 <= h < |table| :: table[h] < ip && (table[h] >= 0 || (kind.ByPtr? && table[h] + DISTANCE_MAX < 0))
  }

  predicate TooFar(kind: TableType, matchIndex: int, current: int)
  {
    !kind.ByU16? && matchIndex + DISTANCE_MAX < current
  }

  /** A 16-bit table stores positions as 16-bit words. */
  method PutIndex(table: array<int>, h: nat, index: nat, kind: TableType)
    requires h < table.Length && (kind.ByU16? ==> index < 0x1_0000)
    modifies table
    ensures table[..] == old(table[..])[h := index]
  {
    table[h] := if kind.ByU16? then index % 0x1_0000 else index;
  }

  /** Looks for the next match from ip0 on, with a step that grows while nothing is found. */
  method FindMatch(src: seq<byte>, table: array<int>, hash: nat -> nat, kind: TableType, acceleration: nat, ip0: nat)
    returns (found: bool, ip: nat, m: nat)
    requires |src| >= MIN_LENGTH && HashesInto(hash, table.Length) && acceleration >= 1
    requires kind.ByU16? ==> |src| < LIMIT_64K
    requires 1 <= ip0 <= |src| - MFLIMIT + 1 && TableBefore(table[..], kind, ip0)
    modifies table
    ensures Search(src, old(table[..]), hash, acceleration, ip0, 0)
            == if found then Found(ip, m, table[..]) else NotFound
    ensures found ==> TableBefore(table[..], kind, ip + 1)
  {
    hide Read32, Search, Candidate;
    var mflimitPlusOne := |src| - MFLIMIT + 1;
    var forwardH := hash(ip0);
    var forwardIp: nat, step, searchMatchNb := ip0, 1, acceleration * SKIP_TRIGGER;
    ghost var k: nat := 0;
    while true
      invariant ip0 <= forwardIp <= mflimitPlusOne && forwardH == hash(forwardIp)
      invariant step == ProbeStep(acceleration, k) && searchMatchNb == acceleration * SKIP_TRIGGER + k
      invariant TableBefore(table[..], kind, forwardIp)
      invariant Search(src, old(table[..]), hash, acceleration, ip0, 0)
                == Search(src, table[..], hash, acceleration, forwardIp, k)
      decreases mflimitPlusOne - forwardIp
    {
      ghost var before := table[..];
      var h, current := forwardH, forwardIp;
      var matchIndex := table[h];
      assert matchIndex == table[..][h];
      ip := forwardIp;
      forwardIp := forwardIp + step;
      step := searchMatchNb / SKIP_TRIGGER;
      searchMatchNb := searchMatchNb + 1;
      k := k + 1;
      if forwardIp > mflimitPlusOne {
        SearchHere(src, before, hash, acceleration, ip, k - 1);
        return false, ip, 0;
      }
      forwardH := hash(forwardIp);
      PutIndex(table, h, current, kind);
      CandidateIs(src, before, kind, ip, h);
      SearchHere(src, before, hash, acceleration, ip, k - 1);
      if !TooFar(kind, matchIndex, current) && Read32(src, matchIndex) == Read32(src, ip) {
        return true, ip, matchIndex;
      }
    }
  }

  lemma SearchHere(src: seq<byte>, table: seq<int>, hash: nat -> nat, acceleration: nat, ip: nat, k: nat)
    requires HashesInto(hash, |table|) && acceleration >= 1
    ensures var next, m, table1 := ip + ProbeStep(acceleration, k), table[hash(ip)], table[hash(ip) := ip];
            Search(src, table, hash, acceleration, ip, k)
            == if next > |src| - MFLIMIT + 1 then NotFound
               else if Candidate(src, ip, m) then Found(ip, m, table1)
               else Search(src, table1, hash, acceleration, next, k + 1)
  {
    hide Candidate, ProbeStep;
  }

  /** The tests of the source are those for a candidate. */
  lemma CandidateIs(src: seq<byte>, table: seq<int>, kind: TableType, ip: nat, h: nat)
    requires h < |table| && TableBefore(table, kind, ip) && ip + MFLIMIT <= |src|
    requires kind.ByU16? ==> |src| < LIMIT_64K
    ensures !TooFar(kind, table[h], ip) ==> table[h] >= 0
    ensures Candidate(src, ip, table[h]) <==>
            !TooFar(kind, table[h], ip) && Read32(src, table[h]) == Read32(src, ip)
  {
    hide Read32;
  }

  /** Extends a match backwards, down to anchor. */
  method CatchUp(src: seq<byte>, anchor: nat, ip0: nat, m0: nat) returns (ip: nat, m: nat)
    requires anchor <= ip0 && Candidate(src, ip0, m0)
    ensures anchor <= ip <= ip0 && ip - m == ip0 - m0 && m <= m0
    ensures SameBytes(src, ip, m, ip0 - ip + 4)
    ensures ip0 - ip == CaughtUp(src, anchor, ip0, m0)
  {
    ip, m := ip0, m0;
    SameWords(src, ip, m);
    while ip > anchor && m > 0 && src[ip - 1] == src[m - 1]
      invariant anchor <= ip <= ip0 && ip - m == ip0 - m0
      invariant SameBytes(src, ip, m, ip0 - ip + 4)
      invariant CaughtUp(src, anchor, ip0, m0) == ip0 - ip + CaughtUp(src, anchor, ip, m)
    {
      ip, m := ip - 1, m - 1;
    }
  }

  // ----- writing -----

  /** Writes the extension bytes of a literal length. */
  method WriteExtension(dst: array<byte>, op0: nat, n: nat) returns (op: nat)
    requires op0 + n / 255 + 1 <= dst.Length
    modifies dst
    ensures op == op0 + n / 255 + 1
    ensures dst[..op] == old(dst[..op0]) + Extension(n)
  {
    op := op0;
    var len := n;
    while len >= 255
      invariant op0 <= op && op + len / 255 == op0 + n / 255
      invariant dst[..op] + Extension(len) == old(dst[..op0]) + Extension(n)
    {
      ghost var before := dst[..op];
      dst[op] := 255;
      op := op + 1;
      assert dst[..op] == before + [255];
      assert before + Extension(len) == dst[..op] + Extension(len - 255);
      len := len - 255;
    }
    ghost var before := dst[..op];
    dst[op] := len;
    op := op + 1;
    assert dst[..op] == before + [len];
  }

  /** The token and the literal length of a sequence; the low four bits of the token are still 0. */
  method WriteToken(dst: array<byte>, op0: nat, litLength: nat) returns (op: nat)
    requires op0 + (litLength + 240) / 255 + 1 <= dst.Length
    modifies dst
    ensures op == op0 + 1 + |LengthField(litLength)| <= dst.Length
    ensures op <= op0 + (litLength + 240) / 255 + 1
    ensures dst[..op] == old(dst[..op0]) + ([16 * Nibble(litLength)] + LengthField(litLength))
  {
    op := op0 + 1;
    if litLength >= RUN_MASK {
      dst[op0] := RUN_MASK * 16;
      assert dst[..op] == old(dst[..op0]) + [16 * Nibble(litLength)];
      op := WriteExtension(dst, op, litLength - RUN_MASK);
      ExtensionShape(litLength - RUN_MASK);
    } else {
      dst[op0] := litLength * 16;
    }
  }

  /** Token, literal length and literals of a sequence. */
  method EncodeLiterals(src: seq<byte>, dst: array<byte>, op0: nat, anchor: nat, ip: nat) returns (op: nat)
    requires anchor <= ip && ip + 8 <= |src|
    requires op0 + (ip - anchor) + (ip - anchor + 240) / 255 + 9 <= dst.Length
    modifies dst
    ensures op == op0 + 1 + |LengthField(ip - anchor)| + (ip - anchor) <= dst.Length
    ensures dst[..op] == old(dst[..op0]) + Header(src, anchor, ip)
  {
    hide LengthField, Nibble;
    var litLength := ip - anchor;
    op := WriteToken(dst, op0, litLength);
    ghost var head := dst[..op];
    WildCopyIn(dst, op, src, anchor, litLength);
    op := op + litLength;
    assert dst[..op] == head + src[anchor..ip];
  }

  /** What EncodeLiterals writes. */
  function Header(src: seq<byte>, anchor: nat, ip: nat): (h: seq<byte>)
    requires anchor <= ip <= |src|
    ensures |h| == 1 + |LengthField(ip - anchor)| + (ip - anchor)
    ensures h[0] == 16 * Nibble(ip - anchor)
  {
    [16 * Nibble(ip - anchor)] + LengthField(ip - anchor) + src[anchor..ip]
  }

  /** Stores four 255 bytes. */
  method Write255s(dst: array<byte>, op: nat)
    requires op + 4 <= dst.Length
    modifies dst
    ensures forall i | op <= i < op + 4 :: dst[i] == 255
    ensures forall i | 0 <= i < op :: dst[i] == old(dst[i])
  {
    dst[op], dst[op + 1], dst[op + 2], dst[op + 3] := 255, 255, 255, 255;
  }

  /** The extension of a match length: words of 255s, of which the last is cut short by the final byte. */
  method WriteMatchExtension(dst: array<byte>, op0: nat, n: nat) returns (op: nat)
    requires op0 + n / 255 + 5 <= dst.Length
    modifies dst
    ensures op == op0 + n / 255 + 1
    ensures dst[..op] == old(dst[..op0]) + Extension(n)
  {
    op := op0;
    var matchCode := n;
    Write255s(dst, op);
    while matchCode >= 4 * 255
      invariant op0 <= op && op + matchCode / 255 == op0 + n / 255 && matchCode % 255 == n % 255
      invariant forall i | op0 <= i < op + 4 :: dst[i] == 255
      invariant forall i | 0 <= i < op0 :: dst[i] == old(dst[i])
    {
      op := op + 4;
      Write255s(dst, op);
      matchCode := matchCode - 4 * 255;
    }
    op := op + matchCode / 255;
    dst[op] := matchCode % 255;
    op := op + 1;
    ExtensionShape(n);
    assert dst[..op] == old(dst[..op0]) + Extension(n);
  }

  // ----- sequences -----

  /**
   The literals of a sequence are written, its copy command is not: up to the token the block stands for the input
   before anchor, and it has stayed within 256/255 of it.
   */
  ghost predicate HeaderWritten(src: seq<byte>, out: seq<byte>, token: nat, anchor: nat, ip: nat)
  {
    && anchor <= ip <= |src| && token <= |out| && 255 * token <= 256 * anchor
    && StandsFor(out[..token], src[..anchor], |src|)
    && out == out[..token] + Header(src, anchor, ip)
  }

  /** The offset, the rest of the token and the match length. */
  method WriteCopy(dst: array<byte>, token: nat, op0: nat, offset: nat, matchCode: nat) returns (op: nat)
    requires token < op0 && op0 + 2 + matchCode / 255 + 5 <= dst.Length
    requires 0 < offset <= DISTANCE_MAX && dst[token] % 16 == 0
    modifies dst
    ensures op == op0 + 2 + |LengthField(matchCode)| <= dst.Length
    ensures dst[..op] == old(dst[..op0])[token := old(dst[token]) + Nibble(matchCode)]
                         + ([offset % 256, offset / 256] + LengthField(matchCode))
  {
    dst[op0], dst[op0 + 1] := offset % 256, offset / 256;
    op := op0 + 2;
    dst[token] := dst[token] + if matchCode >= ML_MASK then ML_MASK else matchCode;
    ghost var before := dst[..op];
    if matchCode >= ML_MASK {
      op := WriteMatchExtension(dst, op, matchCode - ML_MASK);
      ExtensionShape(matchCode - ML_MASK);
    }
    assert before == old(dst[..op0])[token := old(dst[token]) + Nibble(matchCode)] + [offset % 256, offset / 256];
  }

  /** The sizes behind the compression bound: each sequence takes at most 256/255 of what it stands for. */
  lemma SequenceSize(token: nat, anchor: nat, literals: nat, matchCode: nat)
    requires 255 * token <= 256 * anchor
    ensures 255 * (token + 1 + |LengthField(literals)| + literals + 2 + |LengthField(matchCode)|)
            <= 256 * (anchor + literals + matchCode + MINMATCH)
    ensures |LengthField(literals)| <= (literals + 240) / 255
  {
    if literals >= 15 {
      ExtensionShape(literals - 15);
    }
    if matchCode >= 15 {
      ExtensionShape(matchCode - 15);
    }
  }

  lemma SequenceAssembled(written: seq<byte>, literals: seq<byte>, offset: uint16, length: nat, out: seq<byte>)
    requires length >= MINMATCH
    requires var header: seq<byte> := [16 * Nibble(|literals|)] + LengthField(|literals|) + literals;
             out == (written + header)[|written| := header[0] + Nibble(length - MINMATCH)]
                    + ([offset % 256, offset / 256] + LengthField(length - MINMATCH))
    ensures out == written + EncodeSequence(literals, offset, length)
  {
    hide LengthField;
  }

  /** A match that agrees byte by byte with the input decodes to the input. */
  lemma MatchDecodes(src: seq<byte>, anchor: nat, ip0: nat, m: nat, length: nat)
    requires anchor <= ip0 && m < ip0 && ip0 + length <= |src| && SameBytes(src, ip0, m, length)
    ensures CopyMatch(src[..anchor] + src[anchor..ip0], ip0 - m, length) == src[..ip0 + length]
  {
    assert src[..anchor] + src[anchor..ip0] == src[..ip0];
    ReplaysIsCopyMatch(src, ip0, ip0 - m, length);
  }

  lemma SequenceWritten(src: seq<byte>, header: seq<byte>, token: nat, anchor: nat, ip0: nat, m: nat, length: nat,
                        out: seq<byte>)
    requires HeaderWritten(src, header, token, anchor, ip0) && length >= MINMATCH
    requires ip0 + MFLIMIT <= |src| && ip0 + length + LASTLITERALS <= |src|
    requires m < ip0 <= m + DISTANCE_MAX && SameBytes(src, ip0, m, length)
    requires 16 * Nibble(ip0 - anchor) + Nibble(length - MINMATCH) < 0x100
    requires out == header[token := 16 * Nibble(ip0 - anchor) + Nibble(length - MINMATCH)]
                    + ([(ip0 - m) % 256, (ip0 - m) / 256] + LengthField(length - MINMATCH))
    ensures StandsFor(out, src[..ip0 + length], |src|)
    ensures out == header[..token] + EncodeSequence(src[anchor..ip0], ip0 - m, length)
  {
    hide StandsFor, LengthField, EncodeSequence, CopyMatch, Adds, SameBytes;
    var written, literals, offset := header[..token], src[anchor..ip0], ip0 - m;
    SequenceAssembled(written, literals, offset, length, out);
    SequenceAdds(src[..anchor], |src|, literals, offset, length);
    MatchDecodes(src, anchor, ip0, m, length);
    StandsForMore(written, src[..anchor], EncodeSequence(literals, offset, length), src[..ip0 + length], |src|);
  }

  lemma MatchCounted(src: seq<byte>, ip0: nat, m: nat, matchCode: nat)
    requires ip0 + MFLIMIT <= |src| && m < ip0 && SameBytes(src, ip0, m, MINMATCH)
    requires IsCommonLength(src, ip0 + MINMATCH, m + MINMATCH, |src| - LASTLITERALS, matchCode)
    ensures ip0 + matchCode + MINMATCH + LASTLITERALS <= |src|
    ensures SameBytes(src, ip0, m, matchCode + MINMATCH) && ip0 + matchCode + MINMATCH == MatchEnd(src, ip0, m)
  {
    CommonIs(src, ip0 + MINMATCH, m + MINMATCH, |src| - LASTLITERALS, matchCode);
  }

  /** The token of a sequence whose header is written, and the room behind it. */
  lemma HeaderFits(src: seq<byte>, header: seq<byte>, token: nat, anchor: nat, ip0: nat, matchCode: nat)
    requires HeaderWritten(src, header, token, anchor, ip0) && ip0 + matchCode + MINMATCH + LASTLITERALS <= |src|
    ensures token < |header| && header[token] == 16 * Nibble(ip0 - anchor)
    ensures |header| + 2 + matchCode / 255 + 5 <= |src| + |src| / 255 + 16
    ensures 255 * (|header| + 2 + |LengthField(matchCode)|) <= 256 * (ip0 + matchCode + MINMATCH)
  {
    hide StandsFor, LengthField, Nibble;
    SequenceSize(token, anchor, ip0 - anchor, matchCode);
  }

  /** The copy command of a sequence: the match is extended as far as the input agrees. */
  method EncodeMatch(src: seq<byte>, dst: array<byte>, token: nat, op0: nat, anchor: nat, ip0: nat, m: nat)
    returns (op: nat, ip: nat)
    requires op0 <= dst.Length && dst.Length >= |src| + |src| / 255 + 16
    requires HeaderWritten(src, dst[..op0], token, anchor, ip0)
    requires ip0 + MFLIMIT <= |src| && m < ip0 <= m + DISTANCE_MAX && SameBytes(src, ip0, m, MINMATCH)
    modifies dst
    ensures ip0 + MINMATCH <= ip && ip + LASTLITERALS <= |src|
    ensures op <= dst.Length && 255 * op <= 256 * ip && StandsFor(dst[..op], src[..ip], |src|)
    ensures ip == MatchEnd(src, ip0, m)
    ensures dst[..op] == old(dst[..token]) + EncodeSequence(src[anchor..ip0], ip0 - m, ip - ip0)
  {
    hide StandsFor, LengthField, EncodeSequence, CommonLength, Header, SameBytes, IsCommonLength, MatchEnd, Nibble;
    var matchCode := Count(src, ip0 + MINMATCH, m + MINMATCH, |src| - LASTLITERALS);
    ip := ip0 + matchCode + MINMATCH;
    MatchCounted(src, ip0, m, matchCode);
    ghost var header := dst[..op0];
    HeaderFits(src, header, token, anchor, ip0, matchCode);
    assert header[..token] == dst[..token];
    op := WriteCopy(dst, token, op0, ip0 - m, matchCode);
    SequenceWritten(src, header, token, anchor, ip0, m, matchCode + MINMATCH, dst[..op]);
  }

  // ----- whole blocks -----

  /** The block is complete up to input position ip, in a buffer with room for the rest. */
  ghost predicate Written(src: seq<byte>, dst: array<byte>, op: nat, ip: nat)
    reads dst
  {
    && dst.Length >= |src| + |src| / 255 + 16
    && ip <= |src| && op <= dst.Length && 255 * op <= 256 * ip
    && StandsFor(dst[..op], src[..ip], |src|)
  }

  /** The token of a sequence without literals. */
  method EmptyLiterals(src: seq<byte>, dst: array<byte>, token: nat, ip: nat) returns (op: nat)
    requires Written(src, dst, token, ip) && ip + MFLIMIT <= |src|
    modifies dst
    ensures op == token + 1 <= dst.Length && HeaderWritten(src, dst[..op], token, ip, ip)
    ensures dst[..token] == old(dst[..token])
  {
    hide StandsFor;
    dst[token] := 0;
    op := token + 1;
    assert dst[..op] == old(dst[..token]) + Header(src, ip, ip);
    assert dst[..op][..token] == old(dst[..token]);
  }

  /** Enters ip - 2 and ip into the table, and looks whether a match starts at ip. */
  method TestNextPosition(src: seq<byte>, table: array<int>, hash: nat -> nat, kind: TableType, ip: nat)
    returns (again: bool, m: nat)
    requires HashesInto(hash, table.Length) && (kind.ByU16? ==> |src| < LIMIT_64K)
    requires 2 <= ip && ip + MFLIMIT <= |src| && TableBefore(table[..], kind, ip - 1)
    modifies table
    ensures TableBefore(table[..], kind, ip + 1)
    ensures var entered := old(table[..])[hash(ip - 2) := ip - 2];
            && (again <==> Candidate(src, ip, entered[hash(ip)])) && (again ==> m == entered[hash(ip)])
            && table[..] == entered[hash(ip) := ip]
  {
    hide Read32;
    PutIndex(table, hash(ip - 2), ip - 2, kind);
    var h := hash(ip);
    var matchIndex := table[h];
    assert matchIndex == table[..][h];
    CandidateIs(src, table[..], kind, ip, h);
    PutIndex(table, h, ip, kind);
    if TooFar(kind, matchIndex, ip) || Read32(src, matchIndex) != Read32(src, ip) {
      return false, 0;
    }
    return true, matchIndex;
  }

  /** With these sequences still to come, the output is going to be all. */
  ghost predicate Leads(src: seq<byte>, out: seq<byte>, p: seq<Sequence>, anchor: nat, all: seq<byte>)
  {
    anchor <= |src| && AllInOrder(src, p) && out + Encoded(src, p, anchor) == all
  }

  /** A match that was found at found and extended back to ip, with its distance. */
  ghost predicate MatchAt(src: seq<byte>, ip: nat, m: nat, found: nat)
  {
    && ip <= found && found + MFLIMIT <= |src| && m < ip <= m + DISTANCE_MAX
    && SameBytes(src, ip, m, found - ip + MINMATCH)
  }

  /** One match: what follows is still to come. */
  method EncodeOne(src: seq<byte>, dst: array<byte>, token: nat, op0: nat, anchor: nat, ip0: nat, m: nat,
                   ghost found: nat, ghost table: seq<int>, ghost hash: nat -> nat, ghost acceleration: nat,
                   ghost all: seq<byte>)
    returns (op: nat, ip: nat)
    requires HashesInto(hash, |table|) && acceleration >= 1
    requires op0 <= dst.Length && dst.Length >= |src| + |src| / 255 + 16
    requires HeaderWritten(src, dst[..op0], token, anchor, ip0) && MatchAt(src, ip0, m, found)
    requires Leads(src, dst[..token], Chain(src, table, hash, acceleration, anchor, ip0, m), anchor, all)
    modifies dst
    ensures op <= dst.Length && Written(src, dst, op, ip) && found + MINMATCH <= ip && ip + LASTLITERALS <= |src|
    ensures Leads(src, dst[..op], Rest(src, table, hash, acceleration, ip), ip, all)
  {
    hide StandsFor, Encoded, EncodeSequence, Chain, Rest, MatchEnd, Header;
    ghost var before := dst[..token];
    EncodedChain(src, table, hash, acceleration, anchor, ip0, m);
    MatchEndLongest(src, ip0, m, found - ip0 + MINMATCH);
    op, ip := EncodeMatch(src, dst, token, op0, anchor, ip0, m);
    ghost var bytes := EncodeSequence(src[anchor..ip0], ip0 - m, ip - ip0);
    ghost var rest := Encoded(src, Rest(src, table, hash, acceleration, ip), ip);
    assert (before + bytes) + rest == before + (bytes + rest);
  }

  lemma RestIs(src: seq<byte>, table: seq<int>, hash: nat -> nat, acceleration: nat, end: nat)
    requires HashesInto(hash, |table|) && acceleration >= 1 && 2 <= end
    ensures var r := Rest(src, table, hash, acceleration, end);
            if end >= |src| - MFLIMIT + 1 then r == []
            else
              var entered := table[hash(end - 2) := end - 2];
              var m, table1 := entered[hash(end)], entered[hash(end) := end];
              && HashesInto(hash, |table1|)
              && if Candidate(src, end, m) then r == Chain(src, table1, hash, acceleration, end, end, m)
                 else r == Parse(src, table1, hash, acceleration, end, end + 1)
  {
    hide Read32, Chain, Parse;
  }

  /** Where a match follows another one without literals, it starts with the four bytes at its position. */
  lemma CandidateMatches(src: seq<byte>, ip: nat, m: int)
    requires Candidate(src, ip, m) && ip + MFLIMIT <= |src|
    ensures 0 <= m < ip && MatchAt(src, ip, m, ip)
  {
    hide Read32;
    SameWords(src, ip, m);
  }

  /**
   Encodes the match found at position found0 and extended back to ip0, and the matches that follow it without
   literals in between; stop is set when the end of the input is near.
   */
  method EncodeMatches(src: seq<byte>, dst: array<byte>, table: array<int>, hash: nat -> nat, kind: TableType,
                       token0: nat, op0: nat, anchor0: nat, ip0: nat, m0: nat, ghost found0: nat,
                       ghost acceleration: nat, ghost all: seq<byte>)
    returns (op: nat, ip: nat, stop: bool)
    requires dst as object != table && HashesInto(hash, table.Length) && (kind.ByU16? ==> |src| < LIMIT_64K)
    requires token0 <= op0 <= dst.Length && dst.Length >= |src| + |src| / 255 + 16 && acceleration >= 1
    requires anchor0 <= ip0
    requires HeaderWritten(src, dst[..op0], token0, anchor0, ip0) && MatchAt(src, ip0, m0, found0)
    requires TableBefore(table[..], kind, found0 + 1)
    requires Leads(src, dst[..token0], Chain(src, table[..], hash, acceleration, anchor0, ip0, m0), anchor0, all)
    modifies dst, table
    ensures op <= dst.Length && Written(src, dst, op, ip) && ip + LASTLITERALS <= |src|
    ensures !stop ==> found0 < ip && ip + MFLIMIT <= |src| && TableBefore(table[..], kind, ip + 1)
    ensures Leads(src, dst[..op], if stop then [] else Parse(src, table[..], hash, acceleration, ip, ip + 1),
                  ip, all)
  {
    hide StandsFor, Candidate, Encoded, Chain, Parse, Rest, Leads, HeaderWritten, Written;
    var token: nat, anchor: nat, m: nat;
    token, op, anchor, ip, m := token0, op0, anchor0, ip0, m0;
    ghost var found := found0;
    while true
      invariant found0 <= found && anchor <= ip && token <= op <= dst.Length
      invariant HeaderWritten(src, dst[..op], token, anchor, ip) && MatchAt(src, ip, m, found)
      invariant TableBefore(table[..], kind, found + 1)
      invariant Leads(src, dst[..token], Chain(src, table[..], hash, acceleration, anchor, ip, m), anchor, all)
      decreases |src| - found
    {
      op, ip := EncodeOne(src, dst, token, op, anchor, ip, m, found, table[..], hash, acceleration, all);
      anchor := ip;
      RestIs(src, table[..], hash, acceleration, ip);
      if ip >= |src| - MFLIMIT + 1 {
        return op, ip, true;
      }
      var again, matchIndex := TestNextPosition(src, table, hash, kind, ip);
      if !again {
        return op, ip, false;
      }
      CandidateMatches(src, ip, matchIndex);
      token := op;
      op := EmptyLiterals(src, dst, token, ip);
      m, found := matchIndex, ip;
    }
  }

  lemma ParseIs(src: seq<byte>, table: seq<int>, hash: nat -> nat, acceleration: nat, anchor: nat, ip: nat)
    requires HashesInto(hash, |table|) && acceleration >= 1 && anchor < ip
    ensures var p := Parse(src, table, hash, acceleration, anchor, ip);
            var r := Search(src, table, hash, acceleration, ip, 0);
            if r.NotFound? then p == []
            else
              && ip <= r.at && r.at + MFLIMIT <= |src| && Candidate(src, r.at, r.m) && |r.table| == |table|
              && var back := CaughtUp(src, anchor, r.at, r.m);
                 p == Chain(src, r.table, hash, acceleration, anchor, r.at - back, r.m - back)
  {
    hide Read32, Chain, Search, CaughtUp;
  }

  lemma BlockStarts(src: seq<byte>, table: seq<int>, hash: nat -> nat, acceleration: nat)
    requires HashesInto(hash, |table|) && acceleration >= 1 && |src| >= MIN_LENGTH
    ensures Leads(src, [], Parse(src, table[hash(0) := 0], hash, acceleration, 0, 1), 0,
                  Block(src, table, hash, acceleration))
  {
    hide Parse, Encoded;
    var bytes := Encoded(src, Parse(src, table[hash(0) := 0], hash, acceleration, 0, 1), 0);
    assert [] + bytes == bytes;
  }

  /** The main loop: the block up to the last match, and where that match ends. */
  method CompressMatches(src: seq<byte>, dst: array<byte>, table: array<int>, hash: nat -> nat, kind: TableType,
                         acceleration: nat)
    returns (op: nat, anchor: nat)
    requires dst as object != table && HashesInto(hash, table.Length) && acceleration >= 1
    requires kind.ByU16? ==> |src| < LIMIT_64K
    requires |src| >= MIN_LENGTH && dst.Length >= |src| + |src| / 255 + 16
    requires TableBefore(table[..], kind, 1)
    modifies dst, table
    ensures Written(src, dst, op, anchor) && (anchor > 0 ==> anchor + LASTLITERALS <= |src|)
    ensures Leads(src, dst[..op], [], anchor, Block(src, old(table[..]), hash, acceleration))
  {
    hide StandsFor, Candidate, Chain, Parse, Search, Leads, Written, HeaderWritten, Block, CaughtUp;
    op, anchor := 0, 0;
    var ip: nat := 0;
    ghost var all := Block(src, table[..], hash, acceleration);
    BlockStarts(src, table[..], hash, acceleration);
    PutIndex(table, hash(ip), ip, kind);
    ip := ip + 1;
    NothingWritten(src, dst);
    assert dst[..0] == [];
    while true
      invariant Written(src, dst, op, anchor) && op <= dst.Length
      invariant anchor < ip <= |src| - MFLIMIT + 1 && TableBefore(table[..], kind, ip)
      invariant anchor > 0 ==> anchor + LASTLITERALS <= |src|
      invariant Leads(src, dst[..op], Parse(src, table[..], hash, acceleration, anchor, ip), anchor, all)
      decreases |src| - ip
    {
      ParseIs(src, table[..], hash, acceleration, anchor, ip);
      var found, m;
      found, ip, m := FindMatch(src, table, hash, kind, acceleration, ip);
      if !found {
        return op, anchor;
      }
      ghost var foundAt := ip;
      CandidateMatches(src, ip, m);
      ip, m := CatchUp(src, anchor, ip, m);
      var token, stop := op, false;
      op := EncodeHeader(src, dst, token, anchor, ip);
      op, anchor, stop :=
        EncodeMatches(src, dst, table, hash, kind, token, op, anchor, ip, m, foundAt, acceleration, all);
      if stop {
        return op, anchor;
      }
      ip := anchor + 1;
    }
  }

  lemma NothingWritten(src: seq<byte>, dst: array<byte>)
    requires dst.Length >= |src| + |src| / 255 + 16
    ensures Written(src, dst, 0, 0)
  {
    hide StandsFor;
    EmptyStandsForEmpty(|src|);
    assert dst[..0] == [] && src[..0] == [];
  }

  /** EncodeLiterals, with the room for it. */
  method EncodeHeader(src: seq<byte>, dst: array<byte>, token: nat, anchor: nat, ip: nat) returns (op: nat)
    requires Written(src, dst, token, anchor) && anchor <= ip && ip + MFLIMIT <= |src|
    modifies dst
    ensures token <= op <= dst.Length && HeaderWritten(src, dst[..op], token, anchor, ip)
    ensures dst[..token] == old(dst[..token])
  {
    hide StandsFor;
    op := EncodeLiterals(src, dst, token, anchor, ip);
    assert dst[..op][..token] == old(dst[..token]);
  }

  /** The last token, with the literals it announces. */
  method WriteLastLiterals(src: seq<byte>, dst: array<byte>, op0: nat, anchor: nat) returns (op: nat)
    requires anchor <= |src| && dst.Length >= |src| + |src| / 255 + 16 && 255 * op0 <= 256 * anchor
    modifies dst
    ensures 0 < op <= |src| + |src| / 255 + 16
    ensures dst[..op] == old(dst[..op0]) + EncodeLast(src[anchor..])
  {
    hide LengthField;
    var lastRun := |src| - anchor;
    LastSize(|src|, anchor, op0);
    op := WriteToken(dst, op0, lastRun);
    ghost var head := dst[..op];
    CopyIn(dst, op, src, anchor, lastRun);
    op := op + lastRun;
    assert dst[..op] == head + src[anchor..];
  }

  lemma LastSize(n: nat, anchor: nat, op0: nat)
    requires anchor <= n && 255 * op0 <= 256 * anchor
    ensures op0 + 1 + (n - anchor + 240) / 255 + (n - anchor) <= n + n / 255 + 16
  {
  }

  /** The bytes behind the last match complete the block. */
  method EncodeLastLiterals(src: seq<byte>, dst: array<byte>, op0: nat, anchor: nat) returns (op: nat)
    requires Written(src, dst, op0, anchor) && (anchor > 0 ==> anchor + LASTLITERALS <= |src|)
    modifies dst
    ensures 0 < op <= |src| + |src| / 255 + 16 && op <= dst.Length
    ensures Conforms(dst[..op], 0, 0, |src|) && Decode(dst[..op], 0, []) == Some(src)
    ensures dst[..op] == old(dst[..op0]) + EncodeLast(src[anchor..])
  {
    hide StandsFor, Conforms, Decode, EncodeLast;
    ghost var written := dst[..op0];
    op := WriteLastLiterals(src, dst, op0, anchor);
    assert src[..anchor] + src[anchor..] == src;
    StandsForLast(written, src[..anchor], |src|, src[anchor..]);
  }

  /** The compressor, for any hash function, table type and acceleration. */
  method CompressGeneric(src: seq<byte>, dst: array<byte>, table: array<int>, hash: nat -> nat, kind: TableType,
                         acceleration: nat)
    returns (result: nat)
    requires dst as object != table && HashesInto(hash, table.Length) && acceleration >= 1
    requires dst.Length >= CompressBound(|src|)
    requires TableBefore(table[..], kind, 1)
    modifies dst, table
    ensures result == 0 <==> |src| > MAX_INPUT_SIZE || (kind.ByU16? && |src| >= LIMIT_64K)
    ensures result <= CompressBound(|src|) && result <= dst.Length
    ensures result > 0 ==> Conforms(dst[..result], 0, 0, |src|) && Decode(dst[..result], 0, []) == Some(src)
    ensures result > 0 ==> dst[..result] == Block(src, old(table[..]), hash, acceleration)
  {
    hide StandsFor, Conforms, Decode, EncodeLast, Parse;
    if |src| > MAX_INPUT_SIZE {
      return 0;
    }
    if kind.ByU16? && |src| >= LIMIT_64K {
      return 0;
    }
    var op, anchor := 0, 0;
    if |src| >= MIN_LENGTH {
      op, anchor := CompressMatches(src, dst, table, hash, kind, acceleration);
      assert Encoded(src, [], anchor) == EncodeLast(src[anchor..]);
    } else {
      NothingWritten(src, dst);
      assert dst[..0] == [] && src[0..] == src;
    }
    result := EncodeLastLiterals(src, dst, op, anchor);
  }

  // ----- entry points -----

  /** A word times the prime next to 2^32 divided by the golden ratio. */
  function HashProduct(w: uint32): uint32
  {
    w * 2654435761 % U32
  }

  /** The product can be undone, so that each hash belongs to equally many words. */
  lemma HashUndone(w: uint32)
    ensures HashProduct(w) * 244002641 % U32 == w
  {
    hide HashProduct;
    var word: int, product: int := w, HashProduct(w);
    var carried := Carried(w);
    Reduced(product * 244002641, word * 150801925 - carried * 244002641, word);
  }

  lemma Carried(w: uint32) returns (k: nat)
    ensures var word: int, product: int := w, HashProduct(w); word * 2654435761 == k * U32 + product
  {
    var word: int := w;
    k := word * 2654435761 / U32;
  }

  lemma Reduced(m: int, k: int, r: int)
    requires m == k * U32 + r && 0 <= r < U32
    ensures m % U32 == r
  {
  }

  /** The hash of the four bytes at p; 16-bit tables are twice as long. */
  function Hash4(src: seq<byte>, kind: TableType, p: nat): (h: nat)
    requires p + 4 <= |src|
    ensures h < if kind.ByU16? then 8192 else 4096
  {
    var product := HashProduct(Read32(src, p));
    if kind.ByU16? then product / 0x8_0000 else product / 0x10_0000
  }

  /** Which kind of table is used; sourceAddress is where the input lies in a 32-bit address space. */
  function ChooseTable(n: nat, sourceAddress: nat): TableType
  {
    if n < LIMIT_64K then ByU16 else if sourceAddress > DISTANCE_MAX then ByPtr else ByU32
  }

  /** A zeroed table; in a pointer table, 0 is the null pointer. */
  function ZeroedTable(kind: TableType, sourceAddress: nat): (t: seq<int>)
    ensures |t| == if kind.ByU16? then 8192 else 4096
  {
    var address: int := sourceAddress;
    Repeat(if kind.ByPtr? then -address else 0, if kind.ByU16? then 8192 else 4096)
  }

  function HashOf(src: seq<byte>, kind: TableType): nat -> nat
  {
    (p: nat) => if p + 4 <= |src| then Hash4(src, kind, p) else 0
  }

  /** The hash is the 13 upper bits of the product for inputs below 64 KiB and 11 bytes, and 12 bits for longer ones. */
  lemma HashBits(src: seq<byte>, sourceAddress: nat, p: nat)
    requires p + 4 <= |src|
    ensures var h := HashOf(src, ChooseTable(|src|, sourceAddress))(p);
            var unit := if |src| < 0x1_000B then 0x8_0000 else 0x10_0000;
            h * unit <= HashProduct(Read32(src, p)) < (h + 1) * unit
  {
    hide Read32, HashProduct;
  }

  /** The block this program makes of an input. */
  ghost function FastBlock(src: seq<byte>, sourceAddress: nat, acceleration: int): seq<byte>
  {
    var kind := ChooseTable(|src|, sourceAddress);
    Block(src, ZeroedTable(kind, sourceAddress), HashOf(src, kind), if acceleration < 1 then 1 else acceleration)
  }

  /** Compression with a fresh, zeroed table. */
  method CompressFast(src: seq<byte>, dst: array<byte>, sourceAddress: nat, acceleration: int) returns (result: nat)
    requires dst.Length >= CompressBound(|src|)
    modifies dst
    ensures result == 0 <==> |src| > MAX_INPUT_SIZE
    ensures result <= CompressBound(|src|) && result <= dst.Length
    ensures result > 0 ==> Conforms(dst[..result], 0, 0, |src|) && Decode(dst[..result], 0, []) == Some(src)
    ensures result > 0 ==> dst[..result] == FastBlock(src, sourceAddress, acceleration)
  {
    hide Conforms, Decode, Block, Hash4;
    var kind := ChooseTable(|src|, sourceAddress);
    var address: int := sourceAddress;
    var empty := if kind.ByPtr? then -address else 0;
    var table := new int[if kind.ByU16? then 8192 else 4096](_ => empty);
    var hash := HashOf(src, kind);
    assert table[..] == ZeroedTable(kind, sourceAddress);
    result := CompressGeneric(src, dst, table, hash, kind, if acceleration < 1 then 1 else acceleration);
  }
}
