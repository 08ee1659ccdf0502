/**
 Which matches the block compressor chooses: the search with its hash table and growing step, the extension of a match
 in both directions, and the sequences a whole input is cut into.
 */
module Lz4Parse {
  import opened Bytes
  import opened Lz4Format
  import opened Lz4Blocks

  const SKIP_TRIGGER := 64
  const MIN_LENGTH := MFLIMIT + 1

  /** The little-endian word at p. */
  function Read32(src: seq<byte>, p: nat): (w: uint32)
    requires p + 4 <= |src|
  {
    var b0: int, b1: int, b2: int, b3: int := src[p], src[p + 1], src[p + 2], src[p + 3];
    b0 + 0x100 * b1 + 0x1_0000 * b2 + 0x100_0000 * b3
  }

  ghost predicate SameBytes(src: seq<byte>, p: nat, q: nat, n: nat)
    requires p + n <= |src| && q + n <= |src|
  {
    forall i | p <= i < p + n :: src[i] == src[i - p + q]
  }

  // ----- the search -----

  /** A usable earlier occurrence of the four bytes at ip. */
  predicate Candidate(src: seq<byte>, ip: nat, m: int)
  {
    && 0 <= m < ip && ip - m <= DISTANCE_MAX && ip + 4 <= |src|
    && Read32(src, m) == Read32(src, ip)
  }

  /** The hash of a position may be any function; candidates are checked before they are used. */
  ghost predicate HashesInto(hash: nat -> nat, size: nat)
  {
    forall p: nat :: hash(p) < size
  }

  /** The step from probe k to the next one; it grows by one in SKIP_TRIGGER probes. */
  function ProbeStep(acceleration: nat, k: nat): (s: nat)
    requires acceleration >= 1
    ensures s >= 1
  {
    if k == 0 then 1 else (acceleration * SKIP_TRIGGER + k - 1) / SKIP_TRIGGER
  }

  datatype Found = NotFound | Found(at: nat, m: nat, table: seq<int>)

  /** Probe k at position ip: the entry of its hash is tried and replaced; the last position is not tried. */
  ghost function Search(src: seq<byte>, table: seq<int>, hash: nat -> nat, acceleration: nat, ip: nat, k: nat)
    : (r: Found)
    requires HashesInto(hash, |table|) && acceleration >= 1
    ensures r.Found? ==> ip <= r.at && r.at + MFLIMIT <= |src| && Candidate(src, r.at, r.m) && |r.table| == |table|
    decreases |src| - ip
  {
    var next := ip + ProbeStep(acceleration, k);
    if next > |src| - MFLIMIT + 1 then NotFound
    else
      var m, table1 := table[hash(ip)], table[hash(ip) := ip];
      if Candidate(src, ip, m) then Found(ip, m, table1) else Search(src, table1, hash, acceleration, next, k + 1)
  }

  /** The position of probe k of a search from ip0 on. */
  function ProbeAt(ip0: nat, acceleration: nat, k: nat): nat
    requires acceleration >= 1
  {
    if k == 0 then ip0 else ProbeAt(ip0, acceleration, k - 1) + ProbeStep(acceleration, k - 1)
  }

  /** The table at probe k: the positions of the probes before are entered. */
  ghost function TableAt(table: seq<int>, hash: nat -> nat, ip0: nat, acceleration: nat, k: nat): (t: seq<int>)
    requires HashesInto(hash, |table|) && acceleration >= 1
    ensures |t| == |table|
  {
    if k == 0 then table
    else
      var p := ProbeAt(ip0, acceleration, k - 1);
      TableAt(table, hash, ip0, acceleration, k - 1)[hash(p) := p]
  }

  /** Probe k is made, and finds a candidate. */
  ghost predicate Hits(src: seq<byte>, table: seq<int>, hash: nat -> nat, acceleration: nat, ip0: nat, k: nat)
    requires HashesInto(hash, |table|) && acceleration >= 1
  {
    var p := ProbeAt(ip0, acceleration, k);
    && ProbeAt(ip0, acceleration, k + 1) <= |src| - MFLIMIT + 1
    && Candidate(src, p, TableAt(table, hash, ip0, acceleration, k)[hash(p)])
  }

  /** The search, from probe k on. */
  ghost function SearchAt(src: seq<byte>, table: seq<int>, hash: nat -> nat, acceleration: nat, ip0: nat, k: nat): Found
    requires HashesInto(hash, |table|) && acceleration >= 1
  {
    Search(src, TableAt(table, hash, ip0, acceleration, k), hash, acceleration, ProbeAt(ip0, acceleration, k), k)
  }

  ghost predicate FirstHit(src: seq<byte>, table: seq<int>, hash: nat -> nat, acceleration: nat, ip0: nat, k: nat,
                           j: nat)
    requires HashesInto(hash, |table|) && acceleration >= 1
  {
    && k <= j && Hits(src, table, hash, acceleration, ip0, j)
    && forall i: nat | k <= i < j :: !Hits(src, table, hash, acceleration, ip0, i)
  }

  /** What is found, if probe j hits: its position, the entry of its hash and the table behind it. */
  ghost function HitOf(table: seq<int>, hash: nat -> nat, acceleration: nat, ip0: nat, j: nat): (r: Found)
    requires HashesInto(hash, |table|) && acceleration >= 1
    ensures r.NotFound? || 0 <= r.m
  {
    var p, t := ProbeAt(ip0, acceleration, j), TableAt(table, hash, ip0, acceleration, j);
    if t[hash(p)] < 0 then NotFound else Found(p, t[hash(p)], t[hash(p) := p])
  }

  /** One probe. */
  lemma SearchStep(src: seq<byte>, table: seq<int>, hash: nat -> nat, acceleration: nat, ip0: nat, k: nat)
    requires HashesInto(hash, |table|) && acceleration >= 1
    ensures var r := SearchAt(src, table, hash, acceleration, ip0, k);
            && (ProbeAt(ip0, acceleration, k + 1) > |src| - MFLIMIT + 1 ==> r == NotFound)
            && (Hits(src, table, hash, acceleration, ip0, k) ==> r == HitOf(table, hash, acceleration, ip0, k))
            && (Hits(src, table, hash, acceleration, ip0, k) ==> r.Found?)
            && (ProbeAt(ip0, acceleration, k + 1) <= |src| - MFLIMIT + 1
                && !Hits(src, table, hash, acceleration, ip0, k)
                ==> r == SearchAt(src, table, hash, acceleration, ip0, k + 1))
  {
    hide Read32, ProbeStep;
  }

  /** What a search may come to from probe k on: the first hit, or nothing. */
  ghost predicate Outcome(src: seq<byte>, table: seq<int>, hash: nat -> nat, acceleration: nat, ip0: nat, k: nat,
                          r: Found)
    requires HashesInto(hash, |table|) && acceleration >= 1
  {
    if r.NotFound? then forall j: nat | j >= k :: !Hits(src, table, hash, acceleration, ip0, j)
    else exists j: nat :: FirstHit(src, table, hash, acceleration, ip0, k, j)
                          && r == HitOf(table, hash, acceleration, ip0, j)
  }

  lemma OutcomeHere(src: seq<byte>, table: seq<int>, hash: nat -> nat, acceleration: nat, ip0: nat, k: nat)
    requires HashesInto(hash, |table|) && acceleration >= 1
    requires Hits(src, table, hash, acceleration, ip0, k)
    ensures Outcome(src, table, hash, acceleration, ip0, k, HitOf(table, hash, acceleration, ip0, k))
  {
    assert HitOf(table, hash, acceleration, ip0, k).Found?;
    hide Hits, HitOf;
    assert FirstHit(src, table, hash, acceleration, ip0, k, k);
  }

  lemma OutcomeLater(src: seq<byte>, table: seq<int>, hash: nat -> nat, acceleration: nat, ip0: nat, k: nat, r: Found)
    requires HashesInto(hash, |table|) && acceleration >= 1
    requires !Hits(src, table, hash, acceleration, ip0, k)
    requires Outcome(src, table, hash, acceleration, ip0, k + 1, r)
    ensures Outcome(src, table, hash, acceleration, ip0, k, r)
  {
    hide Hits, HitOf;
    if r.Found? {
      var j: nat :| FirstHit(src, table, hash, acceleration, ip0, k + 1, j)
                    && r == HitOf(table, hash, acceleration, ip0, j);
      assert FirstHit(src, table, hash, acceleration, ip0, k, j);
    }
  }

  lemma {:induction false} SearchFrom(src: seq<byte>, table: seq<int>, hash: nat -> nat, acceleration: nat, ip0: nat,
                                      k: nat)
    requires HashesInto(hash, |table|) && acceleration >= 1
    ensures Outcome(src, table, hash, acceleration, ip0, k, SearchAt(src, table, hash, acceleration, ip0, k))
    decreases |src| - ProbeAt(ip0, acceleration, k)
  {
    hide Hits, HitOf, SearchAt, Outcome;
    SearchStep(src, table, hash, acceleration, ip0, k);
    if ProbeAt(ip0, acceleration, k + 1) > |src| - MFLIMIT + 1 {
      TooFarAlong(src, table, hash, acceleration, ip0, k);
    } else if Hits(src, table, hash, acceleration, ip0, k) {
      OutcomeHere(src, table, hash, acceleration, ip0, k);
    } else {
      ProbeNext(ip0, acceleration, k);
      SearchFrom(src, table, hash, acceleration, ip0, k + 1);
      OutcomeLater(src, table, hash, acceleration, ip0, k, SearchAt(src, table, hash, acceleration, ip0, k + 1));
    }
  }

  lemma ProbeNext(ip0: nat, acceleration: nat, k: nat)
    requires acceleration >= 1
    ensures ProbeAt(ip0, acceleration, k) < ProbeAt(ip0, acceleration, k + 1)
  {
  }

  lemma TooFarAlong(src: seq<byte>, table: seq<int>, hash: nat -> nat, acceleration: nat, ip0: nat, k: nat)
    requires HashesInto(hash, |table|) && acceleration >= 1
    requires ProbeAt(ip0, acceleration, k + 1) > |src| - MFLIMIT + 1
    ensures Outcome(src, table, hash, acceleration, ip0, k, NotFound)
  {
    hide Candidate, TableAt, ProbeAt;
    forall j: nat | j >= k
      ensures !Hits(src, table, hash, acceleration, ip0, j)
    {
      ProbesGrow(ip0, acceleration, k + 1, j + 1);
    }
  }

  lemma {:induction false} ProbesGrow(ip0: nat, acceleration: nat, j: nat, k: nat)
    requires acceleration >= 1 && j <= k
    ensures ProbeAt(ip0, acceleration, j) <= ProbeAt(ip0, acceleration, k)
    decreases k
  {
    if j < k {
      ProbesGrow(ip0, acceleration, j, k - 1);
    }
  }

  /** A search is complete: it finds what its first hit finds, and nothing exactly when no probe hits. */
  lemma SearchExactly(src: seq<byte>, table: seq<int>, hash: nat -> nat, acceleration: nat, ip0: nat)
    requires HashesInto(hash, |table|) && acceleration >= 1
    ensures var r := Search(src, table, hash, acceleration, ip0, 0);
            && (r.NotFound? <==> forall j: nat :: !Hits(src, table, hash, acceleration, ip0, j))
            && (r.Found? ==> exists j: nat :: FirstHit(src, table, hash, acceleration, ip0, 0, j)
                                              && r == HitOf(table, hash, acceleration, ip0, j))
  {
    hide Hits, HitOf, FirstHit;
    SearchFrom(src, table, hash, acceleration, ip0, 0);
    FirstIsHit(src, table, hash, acceleration, ip0);
  }

  lemma FirstIsHit(src: seq<byte>, table: seq<int>, hash: nat -> nat, acceleration: nat, ip0: nat)
    requires HashesInto(hash, |table|) && acceleration >= 1
    ensures forall j: nat :: FirstHit(src, table, hash, acceleration, ip0, 0, j)
                             ==> Hits(src, table, hash, acceleration, ip0, j)
  {
    hide Hits;
  }

  // ----- the sequences of an input -----

  /** How far the input agrees with itself, up to a limit. */
  function CommonLength(src: seq<byte>, p: nat, q: nat, limit: nat): (n: nat)
    requires q <= p <= limit <= |src|
    ensures p + n <= limit
    decreases limit - p
  {
    if p < limit && src[p] == src[q] then 1 + CommonLength(src, p + 1, q + 1, limit) else 0
  }

  /** Any agreement is at most as long. */
  lemma {:induction false} CommonAtLeast(src: seq<byte>, p: nat, q: nat, limit: nat, k: nat)
    requires q <= p && p + k <= limit <= |src| && SameBytes(src, p, q, k)
    ensures k <= CommonLength(src, p, q, limit)
    decreases k
  {
    if k > 0 {
      assert src[p] == src[p - p + q];
      assert forall i | p + 1 <= i < p + k :: src[i] == src[i - (p + 1) + (q + 1)];
      CommonAtLeast(src, p + 1, q + 1, limit, k - 1);
    }
  }

  /** How far a match can be extended backwards, down to anchor. */
  function CaughtUp(src: seq<byte>, anchor: nat, ip: nat, m: nat): (n: nat)
    requires anchor <= ip <= |src| && m < ip
    ensures n <= ip - anchor && n <= m
    decreases ip
  {
    if ip > anchor && m > 0 && src[ip - 1] == src[m - 1] then 1 + CaughtUp(src, anchor, ip - 1, m - 1) else 0
  }

  /** Literals from anchor to ip, then a match up to end. */
  datatype Sequence = Sequence(anchor: nat, ip: nat, offset: nat, end: nat)

  predicate InOrder(src: seq<byte>, s: Sequence)
  {
    s.anchor <= s.ip && s.ip + MINMATCH <= s.end <= |src| && 0 < s.offset <= DISTANCE_MAX
  }

  predicate AllInOrder(src: seq<byte>, p: seq<Sequence>)
  {
    forall i | 0 <= i < |p| :: InOrder(src, p[i])
  }

  /** The bytes of one sequence. */
  function SequenceBytes(src: seq<byte>, s: Sequence): seq<byte>
    requires InOrder(src, s)
  {
    EncodeSequence(src[s.anchor..s.ip], s.offset, s.end - s.ip)
  }

  /** The bytes of sequences, and of what is left behind them. */
  function Encoded(src: seq<byte>, p: seq<Sequence>, anchor: nat): seq<byte>
    requires anchor <= |src| && AllInOrder(src, p)
    decreases |p|
  {
    if p == [] then EncodeLast(src[anchor..])
    else
      assert InOrder(src, p[0]) && AllInOrder(src, p[1..]);
      SequenceBytes(src, p[0]) + Encoded(src, p[1..], p[0].end)
  }

  /** From ip on, with what is behind anchor not yet written: each match that is found, and those that follow it. */
  ghost function Parse(src: seq<byte>, table: seq<int>, hash: nat -> nat, acceleration: nat, anchor: nat, ip: nat)
    : (p: seq<Sequence>)
    requires HashesInto(hash, |table|) && acceleration >= 1 && anchor < ip
    ensures AllInOrder(src, p)
    decreases |src| - anchor, 1
  {
    match Search(src, table, hash, acceleration, ip, 0)
    case NotFound => []
    case Found(at, m, table1) =>
      var back := CaughtUp(src, anchor, at, m);
      Chain(src, table1, hash, acceleration, anchor, at - back, m - back)
  }

  /** The match at ip; what lies behind it is tried at once, and otherwise searched from the next position on. */
  ghost function Chain(src: seq<byte>, table: seq<int>, hash: nat -> nat, acceleration: nat, anchor: nat, ip: nat,
                       m: nat): (p: seq<Sequence>)
    requires HashesInto(hash, |table|) && acceleration >= 1
    requires anchor <= ip && ip + MFLIMIT <= |src| && m < ip <= m + DISTANCE_MAX
    ensures AllInOrder(src, p)
    decreases |src| - anchor, 0
  {
    var end := MatchEnd(src, ip, m);
    [Sequence(anchor, ip, ip - m, end)]
    + if end >= |src| - MFLIMIT + 1 then []
      else
        var table1 := table[hash(end - 2) := end - 2];
        var m1, table2 := table1[hash(end)], table1[hash(end) := end];
        if Candidate(src, end, m1) then Chain(src, table2, hash, acceleration, end, end, m1)
        else Parse(src, table2, hash, acceleration, end, end + 1)
  }

  /** The end of a match; the last literals stay outside. */
  function MatchEnd(src: seq<byte>, ip: nat, m: nat): (end: nat)
    requires m < ip && ip + MFLIMIT <= |src|
    ensures ip + MINMATCH <= end && end + LASTLITERALS <= |src|
  {
    ip + MINMATCH + CommonLength(src, ip + MINMATCH, m + MINMATCH, |src| - LASTLITERALS)
  }

  lemma MatchEndLongest(src: seq<byte>, ip: nat, m: nat, k: nat)
    requires m < ip && ip + MFLIMIT <= |src| && k >= MINMATCH && ip + k + LASTLITERALS <= |src|
    requires SameBytes(src, ip, m, k)
    ensures ip + k <= MatchEnd(src, ip, m)
  {
    assert SameBytes(src, ip + MINMATCH, m + MINMATCH, k - MINMATCH) by {
      assert forall i | ip + MINMATCH <= i < ip + k :: src[i] == src[i - ip + m];
    }
    CommonAtLeast(src, ip + MINMATCH, m + MINMATCH, |src| - LASTLITERALS, k - MINMATCH);
  }

  /** A sequence in front. */
  lemma EncodedCons(src: seq<byte>, s: Sequence, p: seq<Sequence>, anchor: nat)
    requires anchor <= |src| && InOrder(src, s) && AllInOrder(src, p)
    ensures AllInOrder(src, [s] + p)
    ensures Encoded(src, [s] + p, anchor) == SequenceBytes(src, s) + Encoded(src, p, s.end)
  {
    hide SequenceBytes;
    assert ([s] + p)[1..] == p;
  }

  /** What follows a match that has been written. */
  ghost function Rest(src: seq<byte>, table: seq<int>, hash: nat -> nat, acceleration: nat, end: nat)
    : (p: seq<Sequence>)
    requires HashesInto(hash, |table|) && acceleration >= 1 && 2 <= end
    ensures AllInOrder(src, p)
  {
    if end >= |src| - MFLIMIT + 1 then []
    else
      var table1 := table[hash(end - 2) := end - 2];
      var m, table2 := table1[hash(end)], table1[hash(end) := end];
      if Candidate(src, end, m) then Chain(src, table2, hash, acceleration, end, end, m)
      else Parse(src, table2, hash, acceleration, end, end + 1)
  }

  /** The bytes of a chain: its first match, and what follows. */
  lemma EncodedChain(src: seq<byte>, table: seq<int>, hash: nat -> nat, acceleration: nat, anchor: nat, ip: nat,
                     m: nat)
    requires HashesInto(hash, |table|) && acceleration >= 1
    requires anchor <= ip && ip + MFLIMIT <= |src| && m < ip <= m + DISTANCE_MAX
    ensures var end := MatchEnd(src, ip, m);
            Encoded(src, Chain(src, table, hash, acceleration, anchor, ip, m), anchor)
            == EncodeSequence(src[anchor..ip], ip - m, end - ip)
               + Encoded(src, Rest(src, table, hash, acceleration, end), end)
  {
    hide Candidate, EncodeSequence, Encoded;
    var end := MatchEnd(src, ip, m);
    EncodedCons(src, Sequence(anchor, ip, ip - m, end), Rest(src, table, hash, acceleration, end), anchor);
  }

  /** The block for an input, with a given table. */
  ghost function Block(src: seq<byte>, table: seq<int>, hash: nat -> nat, acceleration: nat): seq<byte>
    requires HashesInto(hash, |table|) && acceleration >= 1
  {
    if |src| < MIN_LENGTH then EncodeLast(src)
    else Encoded(src, Parse(src, table[hash(0) := 0], hash, acceleration, 0, 1), 0)
  }
}
