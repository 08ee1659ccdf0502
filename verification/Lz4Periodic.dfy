/** What the compressor achieves: an input that repeats itself becomes one period and one match. */
module Lz4Periodic {
  import opened Bytes
  import opened Lz4Format
  import opened Lz4Blocks
  import opened Lz4Parse
  import opened Lz4Compress

  ghost predicate Periodic(src: seq<byte>, d: nat)
  {
    d >= 1 && forall i | d <= i < |src| :: src[i] == src[i - d]
  }

  // ----- phases -----

  /** p modulo d. */
  function Phase(p: nat, d: nat): (r: nat)
    requires d >= 1
    ensures r < d && r <= p
  {
    if p < d then p else Phase(p - d, d)
  }

  lemma {:induction false} PhaseByte(src: seq<byte>, d: nat, p: nat, t: nat)
    requires Periodic(src, d) && p + t < |src|
    ensures src[p + t] == src[Phase(p, d) + t]
    decreases p
  {
    if p >= d {
      assert src[p + t] == src[p + t - d];
      PhaseByte(src, d, p - d, t);
    }
  }

  lemma {:induction false} PhaseDifference(p: nat, q: nat, d: nat)
    requires d >= 1 && q < p && Phase(p, d) == Phase(q, d)
    ensures Phase(p - q, d) == 0 && d <= p - q
    decreases p
  {
    if q >= d {
      PhaseDifference(p - d, q - d, d);
    } else if p - d > q {
      PhaseDifference(p - d, q, d);
    }
  }

  /** Equal hashes, equal positions in the period. */
  ghost predicate Distinct(hash: nat -> nat, d: nat)
  {
    forall i: nat, j: nat | i < j < d :: hash(i) != hash(j)
  }

  /** The hash of a position depends on its four bytes only. */
  ghost predicate HashesWords(src: seq<byte>, hash: nat -> nat)
  {
    forall p: nat, q: nat | p + 4 <= |src| && q + 4 <= |src| && Read32(src, p) == Read32(src, q) :: hash(p) == hash(q)
  }

  lemma PhaseWord(src: seq<byte>, d: nat, p: nat)
    requires Periodic(src, d) && p + 4 <= |src|
    ensures Read32(src, p) == Read32(src, Phase(p, d))
  {
    PhaseByte(src, d, p, 0);
    PhaseByte(src, d, p, 1);
    PhaseByte(src, d, p, 2);
    PhaseByte(src, d, p, 3);
  }

  lemma PhaseHash(src: seq<byte>, hash: nat -> nat, d: nat, p: nat)
    requires Periodic(src, d) && HashesWords(src, hash) && p + 4 <= |src|
    ensures hash(p) == hash(Phase(p, d))
  {
    hide Read32;
    PhaseWord(src, d, p);
  }

  /** Positions with the same hash hold the same words, a multiple of the period apart. */
  lemma SameHash(src: seq<byte>, hash: nat -> nat, d: nat, p: nat, q: nat)
    requires Periodic(src, d) && HashesWords(src, hash) && Distinct(hash, d)
    requires q < p && p + 4 <= |src| && hash(p) == hash(q)
    ensures Read32(src, p) == Read32(src, q) && d <= p - q && Periodic(src, p - q)
  {
    hide Read32;
    PhaseHash(src, hash, d, p);
    PhaseHash(src, hash, d, q);
    PhaseWord(src, d, p);
    PhaseWord(src, d, q);
    var i, j := Phase(p, d), Phase(q, d);
    assert i == j;
    PhaseDifference(p, q, d);
    forall k | p - q <= k < |src|
      ensures src[k] == src[k - (p - q)]
    {
      PhaseByte(src, d, p - q, k - (p - q));
    }
  }

  // ----- the first match of a periodic input -----

  lemma {:induction false} CaughtUpWholly(src: seq<byte>, ip: nat, m: nat)
    requires m < ip <= |src| && Periodic(src, ip - m)
    ensures CaughtUp(src, 0, ip, m) == m
    decreases m
  {
    if m > 0 {
      assert src[ip - 1] == src[ip - 1 - (ip - m)];
      CaughtUpWholly(src, ip - 1, m - 1);
    }
  }

  lemma MatchesToTheEnd(src: seq<byte>, d: nat)
    requires Periodic(src, d) && d + MFLIMIT <= |src|
    ensures MatchEnd(src, d, 0) == |src| - LASTLITERALS
  {
    assert SameBytes(src, d, 0, |src| - LASTLITERALS - d);
    MatchEndLongest(src, d, 0, |src| - LASTLITERALS - d);
  }

  /** The size of d literals, a match up to the last five bytes, and these. */
  function SizeOf(n: nat, d: nat): nat
    requires d + MFLIMIT <= n
  {
    d + 9 + |LengthField(d)| + |LengthField(n - 9 - d)|
  }

  /** The bytes of one period and one match. */
  function OnePeriod(src: seq<byte>, d: nat): seq<byte>
    requires 0 < d <= DISTANCE_MAX && d + MFLIMIT <= |src|
  {
    EncodeSequence(src[..d], d, |src| - LASTLITERALS - d) + EncodeLast(src[|src| - LASTLITERALS..])
  }

  lemma OnePeriodSize(src: seq<byte>, d: nat)
    requires 0 < d <= DISTANCE_MAX && d + MFLIMIT <= |src|
    ensures |OnePeriod(src, d)| == SizeOf(|src|, d)
  {
    hide Extension;
  }

  /** A first match of a periodic input, whatever is found where. */
  lemma FirstMatch(src: seq<byte>, table: seq<int>, hash: nat -> nat, acceleration: nat)
    requires HashesInto(hash, |table|) && acceleration >= 1 && |src| >= MIN_LENGTH
    requires var r := Search(src, table[hash(0) := 0], hash, acceleration, 1, 0); r.Found? && Periodic(src, r.at - r.m)
    ensures var r := Search(src, table[hash(0) := 0], hash, acceleration, 1, 0);
            && 0 < r.at - r.m <= DISTANCE_MAX && r.at - r.m + MFLIMIT <= |src|
            && Block(src, table, hash, acceleration) == OnePeriod(src, r.at - r.m)
  {
    hide Read32, Search, Encoded, EncodeSequence, EncodeLast, MatchEnd, CaughtUp;
    var r := Search(src, table[hash(0) := 0], hash, acceleration, 1, 0);
    var d := r.at - r.m;
    CaughtUpWholly(src, r.at, r.m);
    MatchesToTheEnd(src, d);
    EncodedChain(src, r.table, hash, acceleration, 0, d, 0);
    assert src[0..d] == src[..d];
    NoMore(src, |src| - LASTLITERALS);
  }

  lemma NoMore(src: seq<byte>, anchor: nat)
    requires anchor <= |src|
    ensures Encoded(src, [], anchor) == EncodeLast(src[anchor..])
  {
  }

  // ----- that there is one: positions and hashes -----

  /** The hashes in the table at probe k. */
  ghost function Hashes(hash: nat -> nat, acceleration: nat, k: nat): set<nat>
    requires acceleration >= 1
  {
    if k == 0 then {hash(0)} else Hashes(hash, acceleration, k - 1) + {hash(ProbeAt(1, acceleration, k - 1))}
  }

  /** The hashes of a period. */
  ghost function PeriodHashes(hash: nat -> nat, d: nat): set<nat>
  {
    if d == 0 then {} else PeriodHashes(hash, d - 1) + {hash(d - 1)}
  }

  lemma {:induction false} PeriodHashesAre(hash: nat -> nat, d: nat)
    ensures |PeriodHashes(hash, d)| <= d
    ensures forall i: nat | i < d :: hash(i) in PeriodHashes(hash, d)
    decreases d
  {
    if d > 0 {
      PeriodHashesAre(hash, d - 1);
    }
  }

  /** The entry of a hash that has been entered is a position with this hash, before the probe. */
  lemma {:induction false} EntryOf(entered: seq<int>, hash: nat -> nat, acceleration: nat, k: nat, h: nat)
    requires HashesInto(hash, |entered|) && entered[hash(0)] == 0 && acceleration >= 1
    requires h in Hashes(hash, acceleration, k)
    ensures h < |entered|
    ensures var e := TableAt(entered, hash, 1, acceleration, k)[h];
            0 <= e < ProbeAt(1, acceleration, k) && hash(e) == h
    decreases k
  {
    hide ProbeStep;
    if k > 0 && h != hash(ProbeAt(1, acceleration, k - 1)) {
      EntryOf(entered, hash, acceleration, k - 1, h);
    }
  }

  /** Without a hit, every probe brings a new hash. */
  lemma {:induction false} NewHashes(src: seq<byte>, entered: seq<int>, hash: nat -> nat, acceleration: nat, d: nat,
                                     k: nat)
    requires HashesInto(hash, |entered|) && entered[hash(0)] == 0 && acceleration >= 1
    requires Periodic(src, d) && HashesWords(src, hash) && Distinct(hash, d)
    requires ProbeAt(1, acceleration, k) <= |src| - MFLIMIT + 1
    requires k > 0 ==> ProbeAt(1, acceleration, k - 1) <= DISTANCE_MAX
    requires forall j: nat | j < k :: !Hits(src, entered, hash, acceleration, 1, j)
    ensures |Hashes(hash, acceleration, k)| == k + 1
    ensures forall h | h in Hashes(hash, acceleration, k) :: h in PeriodHashes(hash, d)
    decreases k
  {
    hide Read32, ProbeStep, PeriodHashes, Hits;
    PeriodHashesAre(hash, d);
    if k == 0 {
      assert hash(0) in PeriodHashes(hash, d);
    } else {
      var p := ProbeAt(1, acceleration, k - 1);
      ProbesGrow(1, acceleration, k - 1, k);
      if k > 1 {
        ProbesGrow(1, acceleration, k - 2, k - 1);
      }
      NewHashes(src, entered, hash, acceleration, d, k - 1);
      PhaseHash(src, hash, d, p);
      assert hash(Phase(p, d)) in PeriodHashes(hash, d);
      if hash(p) in Hashes(hash, acceleration, k - 1) {
        OldHashHits(src, entered, hash, acceleration, d, k - 1);
      }
    }
  }

  /** A hash that was entered before is a hit. */
  lemma OldHashHits(src: seq<byte>, entered: seq<int>, hash: nat -> nat, acceleration: nat, d: nat, k: nat)
    requires HashesInto(hash, |entered|) && entered[hash(0)] == 0 && acceleration >= 1
    requires Periodic(src, d) && HashesWords(src, hash) && Distinct(hash, d)
    requires ProbeAt(1, acceleration, k + 1) <= |src| - MFLIMIT + 1 && ProbeAt(1, acceleration, k) <= DISTANCE_MAX
    requires hash(ProbeAt(1, acceleration, k)) in Hashes(hash, acceleration, k)
    ensures Hits(src, entered, hash, acceleration, 1, k)
  {
    hide Read32, ProbeStep, Hashes, TableAt, Periodic, Distinct, HashesWords;
    var p := ProbeAt(1, acceleration, k);
    ProbesGrow(1, acceleration, k, k + 1);
    EntryOf(entered, hash, acceleration, k, hash(p));
    var e := TableAt(entered, hash, 1, acceleration, k)[hash(p)];
    SameHash(src, hash, d, p, e);
  }

  lemma {:induction false} SubsetSize(a: set<nat>, b: set<nat>)
    requires forall x | x in a :: x in b
    ensures |a| <= |b|
    decreases |a|
  {
    if a != {} {
      var x :| x in a;
      SubsetSize(a - {x}, b - {x});
    }
  }

  /** By the probe that has the number of the period, some probe has hit: there are more of them than hashes. */
  lemma SomeHit(src: seq<byte>, entered: seq<int>, hash: nat -> nat, acceleration: nat, d: nat)
    requires HashesInto(hash, |entered|) && entered[hash(0)] == 0 && acceleration >= 1
    requires Periodic(src, d) && HashesWords(src, hash) && Distinct(hash, d)
    requires ProbeAt(1, acceleration, d) <= |src| - MFLIMIT + 1 && ProbeAt(1, acceleration, d - 1) <= DISTANCE_MAX
    ensures exists j: nat :: j < d && Hits(src, entered, hash, acceleration, 1, j)
  {
    hide Read32, ProbeAt, Hits, Hashes, PeriodHashes, HashesWords, Distinct;
    if forall j: nat | j < d :: !Hits(src, entered, hash, acceleration, 1, j) {
      NewHashes(src, entered, hash, acceleration, d, d);
      PeriodHashesAre(hash, d);
      SubsetSize(Hashes(hash, acceleration, d), PeriodHashes(hash, d));
      assert false;
    }
  }

  /** What hits is a whole number of periods back. */
  lemma HitIsPeriod(src: seq<byte>, entered: seq<int>, hash: nat -> nat, acceleration: nat, d: nat, j: nat)
    requires HashesInto(hash, |entered|) && acceleration >= 1
    requires Periodic(src, d) && HashesWords(src, hash) && Distinct(hash, d)
    requires Hits(src, entered, hash, acceleration, 1, j)
    ensures var r := HitOf(entered, hash, acceleration, 1, j);
            r.Found? && r.at == ProbeAt(1, acceleration, j) && d <= r.at - r.m && Periodic(src, r.at - r.m)
  {
    hide Read32, ProbeAt, TableAt, Distinct, Periodic;
    var r := HitOf(entered, hash, acceleration, 1, j);
    assert Candidate(src, r.at, r.m);
    SameHash(src, hash, d, r.at, r.m);
  }

  lemma FirstFound(src: seq<byte>, entered: seq<int>, hash: nat -> nat, acceleration: nat, d: nat)
    requires HashesInto(hash, |entered|) && entered[hash(0)] == 0 && acceleration >= 1
    requires Periodic(src, d) && HashesWords(src, hash) && Distinct(hash, d)
    requires ProbeAt(1, acceleration, d) <= |src| - MFLIMIT + 1 && ProbeAt(1, acceleration, d - 1) <= DISTANCE_MAX
    ensures var r := Search(src, entered, hash, acceleration, 1, 0);
            && r.Found? && r.at <= ProbeAt(1, acceleration, d - 1)
            && d <= r.at - r.m && Periodic(src, r.at - r.m)
  {
    hide Read32, ProbeAt, Hits, HashesWords, Distinct, Periodic, Search, HitOf;
    SomeHit(src, entered, hash, acceleration, d);
    SearchExactly(src, entered, hash, acceleration, 1);
    var i: nat :| i < d && Hits(src, entered, hash, acceleration, 1, i);
    var j: nat :| FirstHit(src, entered, hash, acceleration, 1, 0, j)
                  && Search(src, entered, hash, acceleration, 1, 0) == HitOf(entered, hash, acceleration, 1, j);
    assert j <= i;
    HitIsPeriod(src, entered, hash, acceleration, d, j);
    ProbesGrow(1, acceleration, j, d - 1);
  }

  // ----- how small the block gets -----

  lemma HashOfWords(src: seq<byte>, kind: TableType)
    ensures HashesWords(src, HashOf(src, kind)) && HashesInto(HashOf(src, kind), if kind.ByU16? then 8192 else 4096)
  {
    hide Read32;
  }

  /**
   An input with a period whose positions have different hashes, long enough for as many probes: its block holds at
   most as many literals as those probes reach, and one match for all that follows.
   */
  lemma PeriodicSize(src: seq<byte>, d: nat, sourceAddress: nat, acceleration: nat) returns (distance: nat)
    requires acceleration >= 1 && Periodic(src, d) && Distinct(HashOf(src, ChooseTable(|src|, sourceAddress)), d)
    requires ProbeAt(1, acceleration, d) <= |src| - MFLIMIT + 1 && ProbeAt(1, acceleration, d - 1) <= DISTANCE_MAX
    ensures d <= distance <= ProbeAt(1, acceleration, d - 1) && distance <= DISTANCE_MAX
    ensures distance + MFLIMIT <= |src| && FastBlock(src, sourceAddress, acceleration) == OnePeriod(src, distance)
    ensures |FastBlock(src, sourceAddress, acceleration)| == SizeOf(|src|, distance)
  {
    hide Read32, ProbeAt, HashOf, HashesWords, Distinct, Periodic, Search, Block, OnePeriod, SizeOf;
    var kind := ChooseTable(|src|, sourceAddress);
    var table, hash := ZeroedTable(kind, sourceAddress), HashOf(src, kind);
    HashOfWords(src, kind);
    ProbesGrow(1, acceleration, 0, d);
    FirstProbe(acceleration);
    FirstFound(src, table[hash(0) := 0], hash, acceleration, d);
    FirstMatch(src, table, hash, acceleration);
    var r := Search(src, table[hash(0) := 0], hash, acceleration, 1, 0);
    distance := r.at - r.m;
    OnePeriodSize(src, distance);
  }

  lemma FirstProbe(acceleration: nat)
    requires acceleration >= 1
    ensures ProbeAt(1, acceleration, 0) == 1 && ProbeAt(1, acceleration, 1) == 2
  {
  }

  lemma {:induction false} SlowProbes(k: nat)
    requires k <= 65
    ensures ProbeAt(1, 1, k) == k + 1
  {
    if k > 0 {
      SlowProbes(k - 1);
    }
  }

  /** At the default acceleration, a period of up to 65 bytes costs its literals and one match. */
  lemma ShortPeriod(src: seq<byte>, d: nat, sourceAddress: nat)
    requires Periodic(src, d) && d <= 65 && d + MFLIMIT <= |src|
    requires Distinct(HashOf(src, ChooseTable(|src|, sourceAddress)), d)
    ensures FastBlock(src, sourceAddress, 1) == OnePeriod(src, d)
    ensures |FastBlock(src, sourceAddress, 1)| == SizeOf(|src|, d)
  {
    hide ProbeAt, Periodic, Distinct, FastBlock, OnePeriod, SizeOf, HashOf;
    assert d >= 1 by { PeriodPositive(src, d); }
    SlowProbes(d);
    SlowProbes(d - 1);
    var distance := PeriodicSize(src, d, sourceAddress, 1);
  }

  lemma PeriodPositive(src: seq<byte>, d: nat)
    requires Periodic(src, d)
    ensures d >= 1
  {
  }

  /** One byte, over and over: one literal and one match, whatever the table and the acceleration. */
  lemma ConstantInput(src: seq<byte>, sourceAddress: nat, acceleration: nat)
    requires acceleration >= 1 && |src| >= MIN_LENGTH && forall i | 0 <= i < |src| :: src[i] == src[0]
    ensures FastBlock(src, sourceAddress, acceleration) == OnePeriod(src, 1)
    ensures |FastBlock(src, sourceAddress, acceleration)| == 10 + |LengthField(|src| - 10)|
  {
    hide ProbeAt, FastBlock, OnePeriod, HashOf, LengthField;
    FirstProbe(acceleration);
    var distance := PeriodicSize(src, 1, sourceAddress, acceleration);
    assert distance == 1;
    assert |LengthField(1)| == 0 by { NoField(); }
  }

  lemma NoField()
    ensures LengthField(1) == []
  {
  }

  /** A thousand zeros take fourteen bytes. */
  lemma ThousandZeros(sourceAddress: nat, acceleration: nat)
    requires acceleration >= 1
    ensures FastBlock(Repeat(0, 1000), sourceAddress, acceleration)
            == [0x1F, 0x00, 0x01, 0x00, 0xFF, 0xFF, 0xFF, 0xD2, 0x50, 0, 0, 0, 0, 0]
  {
    hide FastBlock, LengthField;
    var src: seq<byte> := Repeat(0, 1000);
    ConstantInput(src, sourceAddress, acceleration);
    assert src[..1] == [0] && src[995..] == [0, 0, 0, 0, 0];
    Fields();
  }

  lemma Fields()
    ensures LengthField(1) == [] && LengthField(5) == [] && LengthField(990) == [0xFF, 0xFF, 0xFF, 0xD2]
  {
    assert Extension(210) == [210];
    assert Extension(465) == [255] + [210];
    assert Extension(720) == [255] + ([255] + [210]);
    assert Extension(975) == [255] + ([255] + ([255] + [210]));
  }
}
