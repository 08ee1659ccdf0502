/**
 The dirty pages of the small display: writers change the frame buffer and then mark all pages, one work item takes a
 marked page, clears its mark and then copies the page, bit by bit, in the bit order of the controller.
 */
module DirtyPages {
  import opened Bytes
  import opened Bits
  import opened Controller

  const EINVAL := 22
  const MAX_PAGES := 8

  // ----- pages -----

  /** Where a row of pixels starts: rows are packed, eight pixels to a byte. */
  function RowStart(width: nat, row: nat): nat
  {
    row * (width / 8)
  }

  lemma RowNext(width: nat, row: nat)
    ensures RowStart(width, row + 1) == RowStart(width, row) + width / 8
  {
  }

  lemma PageStart(width: nat, page: nat)
    requires width % 8 == 0
    ensures RowStart(width, 8 * page) == page * width
  {
    var line := width / 8;
    assert width == 8 * line;
    EightLines(page, line);
  }

  lemma EightLines(page: nat, line: nat)
    ensures (8 * page) * line == page * (8 * line)
  {
  }

  /** The pixel of a row and a column, least significant bit first. */
  predicate Pixel(vmem: seq<byte>, width: nat, row: nat, column: nat)
    requires width % 8 == 0 && column < width && RowStart(width, row + 1) <= |vmem|
  {
    RowNext(width, row);
    BitAt(vmem[RowStart(width, row) + column / 8], column % 8)
  }

  /** The memory is large enough for a page of eight rows. */
  predicate HasPage(vmem: seq<byte>, width: nat, page: nat)
  {
    width % 8 == 0 && (page + 1) * width <= |vmem|
  }

  lemma {:induction false} RowsAhead(width: nat, row: nat, k: nat)
    ensures RowStart(width, row) <= RowStart(width, row + k)
    decreases k
  {
    hide RowStart;
    if k > 0 {
      RowNext(width, row + k - 1);
      RowsAhead(width, row, k - 1);
    }
  }

  lemma PageRows(vmem: seq<byte>, width: nat, page: nat, i: nat)
    requires HasPage(vmem, width, page) && i < 8
    ensures RowStart(width, 8 * page + i + 1) <= |vmem|
  {
    hide RowStart;
    PageStart(width, page + 1);
    RowsAhead(width, 8 * page + i + 1, 7 - i);
  }

  /** What the controller shows for a page: column after column, the eight pixels of each from top to bottom. */
  function PageBit(vmem: seq<byte>, width: nat, page: nat, k: nat): bool
    requires HasPage(vmem, width, page) && k < 8 * width
  {
    PageRows(vmem, width, page, k % 8);
    Pixel(vmem, width, 8 * page + k % 8, k / 8)
  }

  function PageBits(vmem: seq<byte>, width: nat, page: nat): (b: seq<bool>)
    requires HasPage(vmem, width, page)
    ensures |b| == 8 * width
  {
    seq(8 * width, k requires 0 <= k < 8 * width => PageBit(vmem, width, page, k))
  }

  /** The bits of bytes, least significant first. */
  function BitsOf(b: seq<byte>): (r: seq<bool>)
    ensures |r| == 8 * |b|
  {
    seq(8 * |b|, k requires 0 <= k < 8 * |b| => BitAt(b[k / 8], k % 8))
  }

  /** The byte with the first i pixels of a column. */
  ghost predicate ColumnUpTo(b: byte, vmem: seq<byte>, width: nat, page: nat, j: nat, i: nat)
    requires HasPage(vmem, width, page) && j < width
  {
    forall r: nat | r < 8 :: BitAt(b, r) <==> r < i && PageBit(vmem, width, page, 8 * j + r)
  }

  /** The first j columns of a page are built. */
  ghost predicate Columns(b: seq<byte>, j: nat, vmem: seq<byte>, width: nat, page: nat)
    requires HasPage(vmem, width, page)
  {
    j <= width == |b| && forall c | 0 <= c < j :: ColumnUpTo(b[c], vmem, width, page, c, 8)
  }

  /** One byte of the data sent to the controller. */
  method BuildColumn(vmem: array<byte>, width: nat, page: nat, j: nat) returns (dest: byte)
    requires HasPage(vmem[..], width, page) && j < width
    ensures ColumnUpTo(dest, vmem[..], width, page, j, 8)
  {
    hide BitAt, SetAt, Pow2, PageBit, RowStart;
    dest := 0;
    var sourcePage, sourceLine := page * width, 0;
    forall r: nat | r < 8
      ensures !BitAt(0, r)
    {
      NoBitsOfZero(r);
    }
    assert RowStart(width, 8 * page + 0) == sourcePage by { PageStart(width, page); }
    for i := 0 to 8
      invariant sourcePage + sourceLine == RowStart(width, 8 * page + i)
      invariant ColumnUpTo(dest, vmem[..], width, page, j, i)
    {
      PixelOf(vmem[..], width, page, j, i);
      if BitAt(vmem[sourcePage + sourceLine + j / 8], j % 8) {
        dest := WithBit(dest, i);
      }
      RowNext(width, 8 * page + i);
      sourceLine := sourceLine + width / 8;
    }
  }

  /** b | (1 << i). */
  function WithBit(b: byte, i: nat): (r: byte)
    requires i < 8
    ensures forall k: nat | k < 8 :: BitAt(r, k) <==> BitAt(b, k) || k == i
  {
    Pow2Values();
    SetAtRange(b, i, 8);
    assert forall k: nat | k < 8 :: BitAt(SetAt(b, i), k) <==> BitAt(b, k) || k == i by {
      forall k: nat | k < 8
        ensures BitAt(SetAt(b, i), k) <==> BitAt(b, k) || k == i
      {
        SetAtBits(b, i, k);
      }
    }
    SetAt(b, i)
  }

  lemma PixelOf(vmem: seq<byte>, width: nat, page: nat, j: nat, i: nat)
    requires HasPage(vmem, width, page) && j < width && i < 8
    ensures RowStart(width, 8 * page + i) + j / 8 < |vmem|
    ensures PageBit(vmem, width, page, 8 * j + i) <==> BitAt(vmem[RowStart(width, 8 * page + i) + j / 8], j % 8)
  {
    PageRows(vmem, width, page, i);
    RowNext(width, 8 * page + i);
    hide BitAt, RowStart, HasPage;
    assert (8 * j + i) / 8 == j && (8 * j + i) % 8 == i;
  }

  // ----- the page a byte belongs to -----

  /** Eight rows of packed pixels take as many bytes as a row has pixels. */
  function PageOf(width: nat, at: nat): nat
  {
    if width == 0 || at < width then 0 else 1 + PageOf(width, at - width)
  }

  lemma {:induction false} PageOfExact(width: nat, at: nat, page: nat)
    requires page * width <= at < (page + 1) * width
    ensures PageOf(width, at) == page
    decreases page
  {
    if page > 0 {
      PageBefore(width, page);
      PageOfExact(width, at - width, page - 1);
    }
  }

  lemma PageBefore(width: nat, page: nat)
    requires page > 0
    ensures page * width == (page - 1) * width + width && (page + 1) * width == page * width + width
    ensures 0 <= (page - 1) * width
  {
  }

  /** The bytes a page is read from are those of the page. */
  lemma PixelInPage(vmem: seq<byte>, width: nat, page: nat, k: nat)
    requires HasPage(vmem, width, page) && k < 8 * width
    ensures var at := RowStart(width, 8 * page + k % 8) + k / 8 / 8;
            && at < |vmem| && PageOf(width, at) == page
            && (PageBit(vmem, width, page, k) <==> BitAt(vmem[at], k / 8 % 8))
  {
    hide BitAt, RowStart, PageOf, PageBit;
    var i, j := k % 8, k / 8;
    assert 8 * j + i == k;
    PixelOf(vmem, width, page, j, i);
    RowsAhead(width, 8 * page, i);
    RowsAhead(width, 8 * page + i + 1, 7 - i);
    RowNext(width, 8 * page + i);
    PageStart(width, page);
    PageStart(width, page + 1);
    PageOfExact(width, RowStart(width, 8 * page + i) + j / 8, page);
  }

  /** Changing a byte changes no other page. */
  lemma OtherPagesKept(vmem: seq<byte>, width: nat, at: nat, value: byte, page: nat)
    requires HasPage(vmem, width, page) && at < |vmem| && page != PageOf(width, at)
    ensures PageBits(vmem[at := value], width, page) == PageBits(vmem, width, page)
  {
    hide PageBit, RowStart, PageOf, BitAt;
    forall k | 0 <= k < 8 * width
      ensures PageBit(vmem[at := value], width, page, k) == PageBit(vmem, width, page, k)
    {
      PixelInPage(vmem, width, page, k);
      PixelInPage(vmem[at := value], width, page, k);
    }
  }

  lemma SetDouble(x: nat, r: nat, k: nat)
    requires r < 2
    ensures SetAt(2 * x + r, k + 1) == 2 * SetAt(x, k) + r
  {
    assert (2 * x + r) / 2 == x && (2 * x + r) % 2 == r;
  }

  lemma SetFifth(q: nat, r3: nat, r2: nat, r1: nat, r0: nat)
    requires r3 < 2 && r2 < 2 && r1 < 2 && r0 < 2
    ensures SetAt(16 * q + 8 * r3 + 4 * r2 + 2 * r1 + r0, 4) == 16 * (q / 2 * 2 + 1) + 8 * r3 + 4 * r2 + 2 * r1 + r0
  {
    hide SetAt;
    SetDouble(8 * q + 4 * r3 + 2 * r2 + r1, r0, 3);
    SetDouble(4 * q + 2 * r3 + r2, r1, 2);
    SetDouble(2 * q + r3, r2, 1);
    SetDouble(q, r3, 0);
    SetFirst(q);
  }

  lemma SetFirst(q: nat)
    ensures SetAt(q, 0) == q / 2 * 2 + 1
  {
  }

  lemma HighColumnIs(b: byte)
    ensures WithBit(b, 4) == HighColumn(b)
  {
    hide SetAt;
    var b1, b2, b3, b4 := b / 2, b / 4, b / 8, b / 16;
    assert b == 2 * b1 + b % 2 && b1 == 2 * b2 + b1 % 2 && b2 == 2 * b3 + b2 % 2 && b3 == 2 * b4 + b3 % 2;
    SetFifth(b4, b3 % 2, b2 % 2, b1 % 2, b % 2);
  }

  /**
   What is sent for one page behind the first 0x80: its number, the first column, and a byte for each column.
   */
  method BuildPage(vmem: array<byte>, width: nat, page: nat, segmentOffset: nat) returns (data: array<byte>)
    requires HasPage(vmem[..], width, page) && page < MAX_PAGES
    ensures fresh(data) && data.Length == 6 + width && [0x80] + data[..6] == Header(page, segmentOffset)
    ensures BitsOf(data[6..]) == PageBits(vmem[..], width, page)
  {
    hide BitAt, PageBit, HighColumn, WithBit;
    HighColumnIs(segmentOffset / 0x100 % 0x100);
    data := new byte[6 + width](_ => 0);
    data[0], data[1], data[2] := 0xB0 + page, 0x80, segmentOffset % 0x100;
    data[3], data[4], data[5] := 0x80, WithBit(segmentOffset / 0x100 % 0x100, 4), 0x40;
    var j := 0;
    while j < width
      invariant 0 <= j <= width && [0x80] + data[..6] == Header(page, segmentOffset)
      invariant Columns(data[6..], j, vmem[..], width, page)
    {
      ghost var before, header := data[6..], data[..6];
      var dest := BuildColumn(vmem, width, page, j);
      data[6 + j] := dest;
      assert data[6..] == before[j := dest] && data[..6] == header;
      j := j + 1;
    }
    PageOfColumns(data[6..], vmem[..], width, page);
  }

  lemma PageOfColumns(b: seq<byte>, vmem: seq<byte>, width: nat, page: nat)
    requires HasPage(vmem, width, page) && |b| == width
    requires Columns(b, width, vmem, width, page)
    ensures BitsOf(b) == PageBits(vmem, width, page)
  {
    hide BitAt, PageBit;
    forall k | 0 <= k < 8 * width
      ensures BitsOf(b)[k] == PageBits(vmem, width, page)[k]
    {
      assert ColumnUpTo(b[k / 8], vmem, width, page, k / 8, 8);
      assert 8 * (k / 8) + k % 8 == k;
    }
  }

  // ----- which page is next -----

  /** a & b. */
  function And(a: nat, b: nat): nat
  {
    if a == 0 || b == 0 then 0 else 2 * And(a / 2, b / 2) + if a % 2 == 1 && b % 2 == 1 then 1 else 0
  }

  /** (page + 1) & (pages - 1). */
  function After(page: nat, pages: nat): nat
    requires pages > 0
  {
    And(page + 1, pages - 1)
  }

  predicate SomeDirty(flags: seq<bool>)
    requires |flags| == MAX_PAGES
  {
    exists p | 0 <= p < MAX_PAGES :: flags[p]
  }

  /** The page k steps behind a page, around the end of the eight flags. */
  function Nth(page: nat, k: nat): (p: nat)
    ensures p < MAX_PAGES
  {
    (page + k) % MAX_PAGES
  }

  /** The steps from page to the first marked page. */
  function StepsToDirty(flags: seq<bool>, page: nat, tried: nat): nat
    requires |flags| == MAX_PAGES && tried <= MAX_PAGES
    decreases MAX_PAGES - tried
  {
    if tried == MAX_PAGES || flags[Nth(page, tried)] then tried else StepsToDirty(flags, page, tried + 1)
  }

  /** The page an update takes. */
  function NextDirty(flags: seq<bool>, page: nat): (p: nat)
    requires |flags| == MAX_PAGES
    ensures p < MAX_PAGES
  {
    Nth(page, StepsToDirty(flags, page, 0))
  }

  lemma {:induction false} StepsExact(flags: seq<bool>, page: nat, tried: nat, dirty: nat)
    requires |flags| == MAX_PAGES && tried <= dirty < MAX_PAGES && flags[Nth(page, dirty)]
    requires forall k | 0 <= k < tried :: !flags[Nth(page, k)]
    ensures var n := StepsToDirty(flags, page, tried);
            && n <= dirty && flags[Nth(page, n)]
            && forall k | 0 <= k < n :: !flags[Nth(page, k)]
    decreases MAX_PAGES - tried
  {
    hide Nth;
    if !flags[Nth(page, tried)] {
      StepsExact(flags, page, tried + 1, dirty);
    }
  }

  /** The distance from a page to another, around the end of the eight flags. */
  function Distance(page: nat, p: nat): (k: nat)
    requires page < MAX_PAGES && p < MAX_PAGES
    ensures k < MAX_PAGES && Nth(page, k) == p
  {
    if page <= p then p - page else p + MAX_PAGES - page
  }

  /** The page an update takes is marked, and is not further away than any other marked page. */
  lemma NearestDirty(flags: seq<bool>, page: nat, p: nat)
    requires |flags| == MAX_PAGES && page < MAX_PAGES && p < MAX_PAGES && flags[p]
    ensures flags[NextDirty(flags, page)] && Distance(page, NextDirty(flags, page)) <= Distance(page, p)
  {
    StepsExact(flags, page, 0, Distance(page, p));
  }

  lemma NthNext(page: nat, k: nat)
    ensures Nth(page, k + 1) == (Nth(page, k) + 1) % MAX_PAGES && (page < MAX_PAGES ==> Nth(page, 0) == page)
  {
  }

  /** The search loop of an update. */
  method FindPage(flags: seq<bool>, start: nat) returns (page: nat)
    requires |flags| == MAX_PAGES && SomeDirty(flags)
    ensures page == NextDirty(flags, start % MAX_PAGES)
  {
    hide Nth, StepsToDirty;
    page := start % MAX_PAGES;
    ghost var first: nat := page;
    ghost var tried: nat := 0;
    ghost var dirty :| 0 <= dirty < MAX_PAGES && flags[dirty];
    StepsExact(flags, first, 0, Distance(first, dirty));
    ghost var n := StepsToDirty(flags, first, 0);
    NthNext(first, 0);
    while !flags[page]
      invariant tried <= n && page == Nth(first, tried)
      decreases n - tried
    {
      NthNext(first, tried);
      page := (page + 1) % MAX_PAGES;
      tried := tried + 1;
    }
  }

  // ----- interleavings -----

  datatype Flusher = Resting | Flushing(page: nat, read: seq<bool>)

  /**
   The frame buffer, the marks, the threads, and what the controller shows; copying holds the pages each writer has
   changed since its last mark, sent lists the pages that were taken.
   */
  datatype State = State(vmem: seq<byte>, flags: seq<bool>, copying: seq<set<nat>>, flusher: Flusher, next: nat,
                         shown: seq<seq<bool>>, sent: seq<nat>)

  datatype Action = CopyByte(writer: nat, at: nat, value: byte) | MarkAll(writer: nat) | Take | ReadBit | Send

  /** The flags of all pages: pages_mask. */
  function Mask(pages: nat): (m: seq<bool>)
    ensures |m| == MAX_PAGES
  {
    seq(MAX_PAGES, p => p < pages)
  }

  datatype Screen = Screen(width: nat, pages: nat) {
    predicate Valid()
    {
      width % 8 == 0 && 1 <= pages <= MAX_PAGES
    }
  }

  ghost predicate WellFormed(c: Screen, s: State)
  {
    && c.Valid() && |s.vmem| == c.pages * c.width && |s.flags| == MAX_PAGES && |s.shown| == c.pages
    && s.next < c.pages && (forall p | c.pages <= p < MAX_PAGES :: !s.flags[p])
    && (s.flusher.Flushing? ==> s.flusher.page < c.pages && |s.flusher.read| <= 8 * c.width)
  }

  lemma PageFits(c: Screen, page: nat)
    requires page < c.pages
    ensures (page + 1) * c.width <= c.pages * c.width
  {
  }

  /** One step of one thread; None if the thread is not there. */
  function Step(c: Screen, s: State, a: Action): Option<State>
    requires WellFormed(c, s)
  {
    match a
    case CopyByte(w, at, value) =>
      if w >= |s.copying| || at >= |s.vmem| then None
      else Some(s.(vmem := s.vmem[at := value], copying := s.copying[w := s.copying[w] + {PageOf(c.width, at)}]))
    case MarkAll(w) =>
      if w >= |s.copying| || s.copying[w] == {} then None
      else Some(s.(flags := Mask(c.pages), copying := s.copying[w := {}]))
    case Take =>
      if s.flusher.Flushing? || !SomeDirty(s.flags) then None
      else
        var page := NextDirty(s.flags, s.next);
        Some(s.(flags := s.flags[page := false], flusher := Flushing(page, []), sent := s.sent + [page]))
    case ReadBit =>
      if s.flusher.Resting? || |s.flusher.read| == 8 * c.width then None
      else
        PageFits(c, s.flusher.page);
        Some(s.(flusher := Flushing(s.flusher.page,
                                    s.flusher.read + [PageBit(s.vmem, c.width, s.flusher.page, |s.flusher.read|)])))
    case Send =>
      if s.flusher.Resting? || |s.flusher.read| < 8 * c.width then None
      else Some(s.(shown := s.shown[s.flusher.page := s.flusher.read], flusher := Resting,
                   next := After(s.flusher.page, c.pages)))
  }

  // ----- what every interleaving keeps -----

  predicate SomeCopying(s: State)
  {
    exists w | 0 <= w < |s.copying| :: s.copying[w] != {}
  }

  /** A writer has changed the page and not marked it yet. */
  predicate Touched(s: State, page: nat)
  {
    exists w | 0 <= w < |s.copying| :: page in s.copying[w]
  }

  /** What the controller shows of a page, or what has been read of it so far, is what the frame buffer holds. */
  ghost predicate UpToDate(c: Screen, s: State, page: nat)
    requires WellFormed(c, s) && page < c.pages
  {
    PageFits(c, page);
    if s.flusher.Flushing? && s.flusher.page == page
    then s.flusher.read == PageBits(s.vmem, c.width, page)[..|s.flusher.read|]
    else s.shown[page] == PageBits(s.vmem, c.width, page)
  }

  /** Each page is marked, or a writer that changed it has yet to mark it, or nothing of it is stale. */
  ghost predicate NothingForgotten(c: Screen, s: State)
    requires WellFormed(c, s)
  {
    forall page | 0 <= page < c.pages :: s.flags[page] || Touched(s, page) || UpToDate(c, s, page)
  }

  lemma AfterInRange(page: nat, pages: nat)
    requires 1 <= pages <= MAX_PAGES && page < pages
    ensures After(page, pages) < pages
    ensures pages in {1, 2, 4, 8} ==> After(page, pages) == (page + 1) % pages
  {
    AndOnes(page + 1);
    AndAtMost(page + 1, pages - 1);
  }

  lemma {:induction false} AndAtMost(a: nat, b: nat)
    ensures And(a, b) <= b
    decreases b
  {
    if a != 0 && b != 0 {
      AndAtMost(a / 2, b / 2);
    }
  }

  lemma AndOdd(a: nat, m: nat)
    ensures And(a, 0) == 0 && And(a, 2 * m + 1) == 2 * And(a / 2, m) + a % 2
  {
    var b := 2 * m + 1;
    assert b / 2 == m && b % 2 == 1;
    AndHalves(a, b);
    AndHalves(0, m);
  }

  lemma AndHalves(a: nat, b: nat)
    ensures And(a, 0) == And(0, b) == 0
    ensures b % 2 == 1 ==> And(a, b) == 2 * And(a / 2, b / 2) + a % 2
  {
  }

  lemma LowDigits(a: nat)
    ensures a % 4 == 2 * (a / 2 % 2) + a % 2 && a % 8 == 2 * (a / 2 % 4) + a % 2
  {
    var h, r := a / 2, a % 2;
    LowDigitsOf(h, r, h / 2, h % 2, h / 4, h % 4);
  }

  lemma LowDigitsOf(h: nat, r: nat, h2: nat, r2: nat, h4: nat, r4: nat)
    requires r < 2 && h == 2 * h2 + r2 && r2 < 2 && h == 4 * h4 + r4 && r4 < 4
    ensures (2 * h + r) % 4 == 2 * r2 + r && (2 * h + r) % 8 == 2 * r4 + r
  {
    Remainder(2 * h + r, 4, h2, 2 * r2 + r);
    Remainder(2 * h + r, 8, h4, 2 * r4 + r);
  }

  lemma Remainder(n: nat, m: nat, q: nat, r: nat)
    requires (m == 4 || m == 8) && n == m * q + r && r < m
    ensures n % m == r
  {
  }

  lemma AndOnes(a: nat)
    ensures And(a, 0) == 0 && And(a, 1) == a % 2 && And(a, 3) == a % 4 && And(a, 7) == a % 8
  {
    hide And;
    LowDigits(a);
    LowDigits(a / 2);
    AndOdd(a, 0);
    AndOdd(a / 2, 0);
    AndOdd(a / 2 / 2, 0);
    AndOdd(a, 1);
    AndOdd(a / 2, 1);
    AndOdd(a, 3);
  }

  lemma DirtyPageExists(c: Screen, s: State)
    requires WellFormed(c, s) && SomeDirty(s.flags)
    ensures s.flags[NextDirty(s.flags, s.next)] && NextDirty(s.flags, s.next) < c.pages
  {
    var p :| 0 <= p < MAX_PAGES && s.flags[p];
    NearestDirty(s.flags, s.next, p);
  }

  lemma StepWellFormed(c: Screen, s: State, a: Action)
    requires WellFormed(c, s) && Step(c, s, a).Some?
    ensures WellFormed(c, Step(c, s, a).value)
  {
    hide PageBit, NextDirty, After;
    match a
    case Take => DirtyPageExists(c, s);
    case Send => AfterInRange(s.flusher.page, c.pages);
    case _ =>
  }

  lemma StepKeeps(c: Screen, s: State, a: Action)
    requires WellFormed(c, s) && NothingForgotten(c, s) && Step(c, s, a).Some?
    ensures WellFormed(c, Step(c, s, a).value) && NothingForgotten(c, Step(c, s, a).value)
  {
    StepWellFormed(c, s, a);
    var t := Step(c, s, a).value;
    hide PageBit, NextDirty, After;
    match a
    case CopyByte(w, at, value) => CopyKeeps(c, s, w, at, value);
    case MarkAll(w) =>
    case Take => TakeKeeps(c, s, t);
    case ReadBit => ReadKeeps(c, s, t);
    case Send => SendKeeps(c, s, t);
  }

  lemma CopyKeeps(c: Screen, s: State, w: nat, at: nat, value: byte)
    requires WellFormed(c, s) && NothingForgotten(c, s) && Step(c, s, CopyByte(w, at, value)).Some?
    requires WellFormed(c, Step(c, s, CopyByte(w, at, value)).value)
    ensures NothingForgotten(c, Step(c, s, CopyByte(w, at, value)).value)
  {
    hide PageBit, PageBits, PageOf;
    var t := Step(c, s, CopyByte(w, at, value)).value;
    forall page | 0 <= page < c.pages
      ensures t.flags[page] || Touched(t, page) || UpToDate(c, t, page)
    {
      PageFits(c, page);
      assert s.flags[page] || Touched(s, page) || UpToDate(c, s, page);
      if page == PageOf(c.width, at) {
        assert page in t.copying[w];
      } else {
        OtherPagesKept(s.vmem, c.width, at, value, page);
        TouchedStays(s, t, w, page);
      }
    }
  }

  lemma TouchedStays(s: State, t: State, w: nat, page: nat)
    requires w < |s.copying| == |t.copying| && t.copying == s.copying[w := t.copying[w]] && s.copying[w] <= t.copying[w]
    ensures Touched(s, page) ==> Touched(t, page)
  {
    if Touched(s, page) {
      var v :| 0 <= v < |s.copying| && page in s.copying[v];
      assert page in t.copying[v];
    }
  }

  lemma TakeKeeps(c: Screen, s: State, t: State)
    requires WellFormed(c, s) && NothingForgotten(c, s) && Step(c, s, Take) == Some(t) && WellFormed(c, t)
    ensures NothingForgotten(c, t)
  {
    hide PageBit, PageBits;
    forall page | 0 <= page < c.pages
      ensures t.flags[page] || Touched(t, page) || UpToDate(c, t, page)
    {
      PageFits(c, page);
      assert s.flags[page] || Touched(s, page) || UpToDate(c, s, page);
      assert PageBits(t.vmem, c.width, page)[..0] == [];
    }
  }

  lemma ReadKeeps(c: Screen, s: State, t: State)
    requires WellFormed(c, s) && NothingForgotten(c, s) && Step(c, s, ReadBit) == Some(t) && WellFormed(c, t)
    ensures NothingForgotten(c, t)
  {
    hide PageBit;
    forall page | 0 <= page < c.pages
      ensures t.flags[page] || Touched(t, page) || UpToDate(c, t, page)
    {
      PageFits(c, page);
      assert s.flags[page] || Touched(s, page) || UpToDate(c, s, page);
      var n := |s.flusher.read|;
      assert PageBits(s.vmem, c.width, page)[..n + 1]
             == PageBits(s.vmem, c.width, page)[..n] + [PageBits(s.vmem, c.width, page)[n]];
    }
  }

  lemma SendKeeps(c: Screen, s: State, t: State)
    requires WellFormed(c, s) && NothingForgotten(c, s) && Step(c, s, Send) == Some(t) && WellFormed(c, t)
    ensures NothingForgotten(c, t)
  {
    hide PageBit, PageBits, After;
    forall page | 0 <= page < c.pages
      ensures t.flags[page] || Touched(t, page) || UpToDate(c, t, page)
    {
      PageFits(c, page);
      assert s.flags[page] || Touched(s, page) || UpToDate(c, s, page);
      assert PageBits(s.vmem, c.width, page)[..8 * c.width] == PageBits(s.vmem, c.width, page);
    }
  }

  // ----- whole runs -----

  ghost function Run(c: Screen, s: State, actions: seq<Action>): Option<State>
    requires WellFormed(c, s)
    decreases |actions|
  {
    if actions == [] then Some(s)
    else
      match Step(c, s, actions[0])
      case None => None
      case Some(t) =>
        StepWellFormed(c, s, actions[0]);
        Run(c, t, actions[1..])
  }

  /** After the initialisation of the display: all pages marked, whatever is shown. */
  ghost predicate Initial(c: Screen, s: State)
  {
    && WellFormed(c, s) && s.flags == Mask(c.pages) && s.flusher == Resting && s.next == 0 && s.sent == []
    && forall w | 0 <= w < |s.copying| :: s.copying[w] == {}
  }

  lemma {:induction false} RunKeeps(c: Screen, s: State, actions: seq<Action>)
    requires WellFormed(c, s) && NothingForgotten(c, s) && Run(c, s, actions).Some?
    ensures WellFormed(c, Run(c, s, actions).value) && NothingForgotten(c, Run(c, s, actions).value)
    decreases |actions|
  {
    hide WellFormed, NothingForgotten, Step;
    if actions != [] {
      StepKeeps(c, s, actions[0]);
      RunKeeps(c, Step(c, s, actions[0]).value, actions[1..]);
    }
  }

  /** Whatever the interleaving, a page is up to date unless it is marked or a writer changed it since its last mark. */
  lemma DisplaySafe(c: Screen, s: State, actions: seq<Action>)
    requires Initial(c, s) && Run(c, s, actions).Some?
    ensures WellFormed(c, Run(c, s, actions).value) && NothingForgotten(c, Run(c, s, actions).value)
  {
    RunKeeps(c, s, actions);
  }

  /** When a page has come to rest, the controller shows what the frame buffer holds of it. */
  lemma AtRest(c: Screen, s: State, actions: seq<Action>, page: nat)
    requires Initial(c, s) && Run(c, s, actions).Some? && page < c.pages
    ensures var t := Run(c, s, actions).value;
            && HasPage(t.vmem, c.width, page) && |t.shown| == c.pages && |t.flags| == MAX_PAGES
            && (!t.flags[page] && !Touched(t, page) && !(t.flusher.Flushing? && t.flusher.page == page)
                ==> t.shown[page] == PageBits(t.vmem, c.width, page))
  {
    hide PageBits;
    DisplaySafe(c, s, actions);
    PageFits(c, page);
    var t := Run(c, s, actions).value;
    assert t.flags[page] || Touched(t, page) || UpToDate(c, t, page);
  }

  // ----- whether every page gets its turn -----

  /** The page at which the next search will start. */
  function NextStart(c: Screen, s: State): nat
    requires c.pages > 0
  {
    if s.flusher.Flushing? then After(s.flusher.page, c.pages) else s.next
  }

  /** How many updates may come before page is taken, when the search starts at start. */
  function Turns(c: Screen, start: nat, page: nat): int
  {
    if start <= page then page - start else page + c.pages - start
  }

  lemma TurnPassed(c: Screen, flags: seq<bool>, start: nat, page: nat)
    requires c.pages in {1, 2, 4, 8} && start < c.pages && page < c.pages && |flags| == MAX_PAGES && flags[page]
    requires forall p | c.pages <= p < MAX_PAGES :: !flags[p]
    ensures var q := NextDirty(flags, start);
            q != page ==> 0 <= Turns(c, After(q, c.pages), page) < Turns(c, start, page)
  {
    hide NextDirty, After;
    NearestDirty(flags, start, page);
    var q := NextDirty(flags, start);
    AfterInRange(q, c.pages);
  }

  /** A step that does not take the page leaves it marked, and an update brings its turn nearer. */
  lemma TurnComes(c: Screen, s: State, a: Action, page: nat)
    requires WellFormed(c, s) && c.pages in {1, 2, 4, 8} && page < c.pages && s.flags[page] && Step(c, s, a).Some?
    requires a == Take ==> NextDirty(s.flags, s.next) != page
    ensures var t := Step(c, s, a).value;
            && |t.flags| == MAX_PAGES && t.flags[page]
            && 0 <= Turns(c, NextStart(c, t), page)
            && |t.sent| + Turns(c, NextStart(c, t), page) <= |s.sent| + Turns(c, NextStart(c, s), page)
  {
    hide PageBit, NextDirty, After;
    StartInRange(c, s);
    if a == Take {
      TurnPassed(c, s.flags, s.next, page);
    }
  }

  lemma StartInRange(c: Screen, s: State)
    requires WellFormed(c, s)
    ensures NextStart(c, s) < c.pages
  {
    hide After;
    if s.flusher.Flushing? {
      AfterInRange(s.flusher.page, c.pages);
    }
  }

  /** With a power-of-two number of pages, a marked page waits for its turn, and no longer. */
  lemma {:induction false} TakenInTurn(c: Screen, s: State, actions: seq<Action>, page: nat)
    requires WellFormed(c, s) && c.pages in {1, 2, 4, 8} && page < c.pages && s.flags[page]
    requires Run(c, s, actions).Some? && |Run(c, s, actions).value.sent| > |s.sent| + Turns(c, NextStart(c, s), page)
    ensures s.sent <= Run(c, s, actions).value.sent && page in Run(c, s, actions).value.sent[|s.sent|..]
    decreases |actions|
  {
    hide PageBit, NextDirty, After, Turns, NextStart, SomeDirty;
    SentGrows(c, s, actions);
    assert 0 <= Turns(c, NextStart(c, s), page) by { TurnsNatural(c, s, page); }
    assert actions != [];
    var a := actions[0];
    StepWellFormed(c, s, a);
    var t := Step(c, s, a).value;
    SentGrows(c, t, actions[1..]);
    var end := Run(c, s, actions).value;
    if a == Take && NextDirty(s.flags, s.next) == page {
      assert end.sent[|s.sent|] == t.sent[|s.sent|] == page;
    } else {
      TurnComes(c, s, a, page);
      TakenInTurn(c, t, actions[1..], page);
      assert |t.sent| >= |s.sent|;
      assert end.sent[|t.sent|..] == end.sent[|s.sent|..][|t.sent| - |s.sent|..];
    }
  }

  lemma TurnsNatural(c: Screen, s: State, page: nat)
    requires WellFormed(c, s) && page < c.pages
    ensures 0 <= Turns(c, NextStart(c, s), page)
  {
    StartInRange(c, s);
  }

  lemma {:induction false} SentGrows(c: Screen, s: State, actions: seq<Action>)
    requires WellFormed(c, s) && Run(c, s, actions).Some?
    ensures s.sent <= Run(c, s, actions).value.sent
    decreases |actions|
  {
    hide PageBit, NextDirty, After, WellFormed;
    if actions != [] {
      StepWellFormed(c, s, actions[0]);
      SentGrows(c, Step(c, s, actions[0]).value, actions[1..]);
    }
  }

  /** One update: take a page, read it bit by bit, send it. */
  function Update(width: nat): seq<Action>
  {
    [Take] + Reads(8 * width) + [Send]
  }

  function Reads(n: nat): (r: seq<Action>)
    ensures |r| == n
  {
    if n == 0 then [] else [ReadBit] + Reads(n - 1)
  }

  /** A writer that changes the frame buffer before each of n updates. */
  function Animation(width: nat, n: nat): seq<Action>
  {
    if n == 0 then [] else [CopyByte(0, 0, 0), MarkAll(0)] + Update(width) + Animation(width, n - 1)
  }

  lemma {:induction false} RunAppend(c: Screen, s: State, a: seq<Action>, b: seq<Action>)
    requires WellFormed(c, s) && Run(c, s, a).Some?
    ensures WellFormed(c, Run(c, s, a).value)
    ensures Run(c, s, a + b) == Run(c, Run(c, s, a).value, b)
    decreases |a|
  {
    hide WellFormed, Step;
    if a == [] {
      assert a + b == b;
    } else {
      StepWellFormed(c, s, a[0]);
      RunAppend(c, Step(c, s, a[0]).value, a[1..], b);
      assert (a + b)[1..] == a[1..] + b;
    }
  }

  lemma RunOne(c: Screen, s: State, a: Action)
    requires WellFormed(c, s) && Step(c, s, a).Some?
    ensures Run(c, s, [a]) == Step(c, s, a)
  {
    hide Step, WellFormed;
    StepWellFormed(c, s, a);
    assert [a][1..] == [];
  }

  /** What has been read of the page is what it holds. */
  ghost predicate ReadSoFar(c: Screen, s: State)
    requires WellFormed(c, s) && s.flusher.Flushing?
  {
    PageFits(c, s.flusher.page);
    s.flusher.read == PageBits(s.vmem, c.width, s.flusher.page)[..|s.flusher.read|]
  }

  lemma ReadMore(c: Screen, s: State)
    requires WellFormed(c, s) && s.flusher.Flushing? && |s.flusher.read| < 8 * c.width && ReadSoFar(c, s)
    ensures Step(c, s, ReadBit).Some? && WellFormed(c, Step(c, s, ReadBit).value)
    ensures ReadSoFar(c, Step(c, s, ReadBit).value)
  {
    hide PageBit;
    StepWellFormed(c, s, ReadBit);
    PageFits(c, s.flusher.page);
    var all, n := PageBits(s.vmem, c.width, s.flusher.page), |s.flusher.read|;
    assert all[..n + 1] == all[..n] + [all[n]];
  }

  lemma {:induction false} RunReads(c: Screen, s: State, n: nat)
    requires WellFormed(c, s) && s.flusher.Flushing? && |s.flusher.read| + n == 8 * c.width && ReadSoFar(c, s)
    ensures HasPage(s.vmem, c.width, s.flusher.page)
    ensures Run(c, s, Reads(n)) == Some(s.(flusher := Flushing(s.flusher.page,
                                                               PageBits(s.vmem, c.width, s.flusher.page))))
    decreases n
  {
    hide PageBit, WellFormed, ReadSoFar, PageBits;
    ReadEnds(c, s);
    if n > 0 {
      ReadMore(c, s);
      RunReads(c, Step(c, s, ReadBit).value, n - 1);
      assert ([ReadBit] + Reads(n - 1))[1..] == Reads(n - 1);
    }
  }

  lemma ReadEnds(c: Screen, s: State)
    requires WellFormed(c, s) && s.flusher.Flushing? && ReadSoFar(c, s)
    ensures HasPage(s.vmem, c.width, s.flusher.page) && |s.flusher.read| <= 8 * c.width
    ensures |s.flusher.read| == 8 * c.width
            ==> s.flusher == Flushing(s.flusher.page, PageBits(s.vmem, c.width, s.flusher.page))
  {
    hide PageBit;
    PageFits(c, s.flusher.page);
  }

  /** What an update does when nobody interrupts it. */
  function Updated(c: Screen, s: State): (t: State)
    requires WellFormed(c, s) && SomeDirty(s.flags)
  {
    DirtyPageExists(c, s);
    var page := NextDirty(s.flags, s.next);
    PageFits(c, page);
    s.(flags := s.flags[page := false], shown := s.shown[page := PageBits(s.vmem, c.width, page)],
       next := After(page, c.pages), sent := s.sent + [page])
  }

  lemma UpdatedIs(c: Screen, s: State)
    requires WellFormed(c, s) && SomeDirty(s.flags)
    ensures var t, page := Updated(c, s), NextDirty(s.flags, s.next);
            && page < c.pages && HasPage(s.vmem, c.width, page) && After(page, c.pages) < c.pages
            && t == State(s.vmem, s.flags[page := false], s.copying, s.flusher, After(page, c.pages),
                          s.shown[page := PageBits(s.vmem, c.width, page)], s.sent + [page])
  {
    hide PageBits, NextDirty, After;
    DirtyPageExists(c, s);
    PageFits(c, NextDirty(s.flags, s.next));
    AfterInRange(NextDirty(s.flags, s.next), c.pages);
  }

  lemma RunUpdate(c: Screen, s: State)
    requires WellFormed(c, s) && s.flusher == Resting && SomeDirty(s.flags)
    ensures Run(c, s, Update(c.width)) == Some(Updated(c, s)) && WellFormed(c, Updated(c, s))
  {
    hide PageBit, PageBits, NextDirty, After, Reads;
    DirtyPageExists(c, s);
    PageFits(c, NextDirty(s.flags, s.next));
    RunOne(c, s, Take);
    StepWellFormed(c, s, Take);
    var s1 := Step(c, s, Take).value;
    RunAppend(c, s, [Take], Reads(8 * c.width));
    RunReads(c, s1, 8 * c.width);
    RunAppend(c, s, [Take] + Reads(8 * c.width), [Send]);
    var s2 := Run(c, s1, Reads(8 * c.width)).value;
    RunOne(c, s2, Send);
    RunAppend(c, s, Update(c.width), []);
  }

  /** One turn of the animation, from a state in which only the first two pages have ever been taken. */
  ghost predicate Starving(c: Screen, s: State)
    requires WellFormed(c, s)
  {
    && s.flags[2] && s.flusher == Resting && (s.next == 0 || (c.pages == 6 && s.next == 1)) && 2 !in s.sent
    && |s.copying| > 0 && |s.vmem| > 0 && s.copying[0] == {}
  }

  lemma NextOfAll(c: Screen, next: nat)
    requires c.Valid() && next < c.pages
    ensures SomeDirty(Mask(c.pages)) && NextDirty(Mask(c.pages), next) == next
  {
    assert Mask(c.pages)[next];
    NearestDirty(Mask(c.pages), next, next);
  }

  lemma StarvingTurn(c: Screen, s: State)
    requires WellFormed(c, s) && Starving(c, s) && c.pages in {3, 5, 6, 7}
    ensures var turn := [CopyByte(0, 0, 0), MarkAll(0)] + Update(c.width);
            && Run(c, s, turn).Some? && WellFormed(c, Run(c, s, turn).value) && Starving(c, Run(c, s, turn).value)
            && |Run(c, s, turn).value.sent| == |s.sent| + 1
  {
    hide PageBit, NextDirty, After, Mask, Update;
    var a, b := CopyByte(0, 0, 0), MarkAll(0);
    StepWellFormed(c, s, a);
    var s1 := Step(c, s, a).value;
    StepWellFormed(c, s1, b);
    var s2 := Step(c, s1, b).value;
    RunOne(c, s, a);
    RunAppend(c, s, [a], [b]);
    RunOne(c, s1, b);
    assert [a] + [b] == [a, b];
    NextOfAll(c, s.next);
    RunUpdate(c, s2);
    RunAppend(c, s, [a, b], Update(c.width));
    SmallAfter(c.pages);
    MaskHas(c.pages, 2);
  }

  lemma MaskHas(pages: nat, p: nat)
    requires p < pages <= MAX_PAGES
    ensures Mask(pages)[p]
  {
  }

  /** With these numbers of pages, the search starts at the first page again, or with six at the first or second. */
  lemma SmallAfter(pages: nat)
    requires pages in {3, 5, 6, 7}
    ensures After(0, pages) == (if pages == 6 then 1 else 0) && After(1, 6) == 0
  {
    assert And(1, 2) == 0 && And(1, 4) == 0 && And(1, 5) == 1 && And(1, 6) == 0 && And(2, 5) == 0;
  }

  lemma {:induction false} StarvingRun(c: Screen, s: State, n: nat)
    requires WellFormed(c, s) && Starving(c, s) && c.pages in {3, 5, 6, 7}
    ensures Run(c, s, Animation(c.width, n)).Some?
    ensures 2 !in Run(c, s, Animation(c.width, n)).value.sent
    ensures |Run(c, s, Animation(c.width, n)).value.sent| == |s.sent| + n
    decreases n
  {
    hide WellFormed, Starving, Step, Update;
    if n == 0 {
      assert 2 !in s.sent by { NotSent(c, s); }
    } else {
      var turn := [CopyByte(0, 0, 0), MarkAll(0)] + Update(c.width);
      StarvingTurn(c, s);
      RunAppend(c, s, turn, Animation(c.width, n - 1));
      StarvingRun(c, Run(c, s, turn).value, n - 1);
    }
  }

  lemma NotSent(c: Screen, s: State)
    requires WellFormed(c, s) && Starving(c, s)
    ensures 2 !in s.sent
  {
  }

  /** A marked page is taken within as many updates as there are pages, however often pages are marked again. */
  ghost predicate EveryPageInTime(c: Screen)
  {
    forall s: State, actions: seq<Action>, page: nat ::
      WellFormed(c, s) && Run(c, s, actions).Some? && page < c.pages && s.flags[page]
      && |Run(c, s, actions).value.sent| >= |s.sent| + c.pages
      ==> page in Run(c, s, actions).value.sent[|s.sent|..]
  }

  lemma InTimeWithPowersOfTwo(c: Screen)
    requires c.pages in {1, 2, 4, 8}
    ensures EveryPageInTime(c)
  {
    hide NextDirty, After, Step;
    forall s: State, actions: seq<Action>, page: nat |
      WellFormed(c, s) && Run(c, s, actions).Some? && page < c.pages && s.flags[page]
      && |Run(c, s, actions).value.sent| >= |s.sent| + c.pages
      ensures page in Run(c, s, actions).value.sent[|s.sent|..]
    {
      StartInRange(c, s);
      TakenInTurn(c, s, actions, page);
    }
  }

  /** A state in which page 2 waits, with one writer. */
  ghost function Waiting(c: Screen): (s: State)
    requires c.Valid() && c.pages in {3, 5, 6, 7} && c.width > 0
    ensures WellFormed(c, s) && Starving(c, s)
  {
    assert c.pages * c.width > 0;
    State(seq(c.pages * c.width, _ => 0), Mask(c.pages), [{}], Resting, 0, seq(c.pages, _ => []), [])
  }

  /** Every page gets its turn exactly when the number of pages is a power of two. */
  lemma FairExactly(c: Screen)
    requires c.Valid() && c.width > 0
    ensures EveryPageInTime(c) <==> c.pages in {1, 2, 4, 8}
  {
    hide WellFormed, Starving, Waiting, Animation;
    if c.pages in {1, 2, 4, 8} {
      InTimeWithPowersOfTwo(c);
    } else {
      var s := Waiting(c);
      StarvingRun(c, s, c.pages);
      PageTwoWaits(c, s);
      assert 2 !in Run(c, s, Animation(c.width, c.pages)).value.sent[|s.sent|..];
    }
  }

  lemma PageTwoWaits(c: Screen, s: State)
    requires WellFormed(c, s) && Starving(c, s) && c.pages in {3, 5, 6, 7}
    ensures |s.flags| == MAX_PAGES && s.flags[2] && 2 < c.pages
  {
  }

  // ----- the driver's entry points -----

  /** The steps of one writer that changes the bytes from position p on. */
  function Copies(p: nat, bytes: seq<byte>): seq<Action>
    decreases |bytes|
  {
    if bytes == [] then [] else [CopyByte(0, p, bytes[0])] + Copies(p + 1, bytes[1..])
  }

  /** The pages of n bytes from position p on. */
  function PagesFrom(width: nat, p: nat, n: nat): set<nat>
    decreases n
  {
    if n == 0 then {} else {PageOf(width, p)} + PagesFrom(width, p + 1, n - 1)
  }

  /** A write: its bytes, then the mark. */
  function WriteSteps(p: nat, bytes: seq<byte>): seq<Action>
  {
    Copies(p, bytes) + [MarkAll(0)]
  }

  /** The frame buffer with other bytes from p on. */
  function Overwritten(vmem: seq<byte>, p: nat, bytes: seq<byte>): seq<byte>
    requires p + |bytes| <= |vmem|
  {
    vmem[..p] + bytes + vmem[p + |bytes|..]
  }

  lemma OverwriteOne(vmem: seq<byte>, p: nat, bytes: seq<byte>)
    requires p + |bytes| <= |vmem| && bytes != []
    ensures Overwritten(vmem[p := bytes[0]], p + 1, bytes[1..]) == Overwritten(vmem, p, bytes)
  {
  }

  /** The state after the first writer has copied some bytes. */
  function Copied(c: Screen, s: State, p: nat, bytes: seq<byte>): State
    requires |s.copying| > 0 && p + |bytes| <= |s.vmem|
  {
    s.(vmem := Overwritten(s.vmem, p, bytes),
       copying := s.copying[0 := s.copying[0] + PagesFrom(c.width, p, |bytes|)])
  }

  lemma CopyOne(c: Screen, s: State, p: nat, bytes: seq<byte>)
    requires WellFormed(c, s) && |s.copying| > 0 && p + |bytes| <= |s.vmem| && bytes != []
    ensures var t := Step(c, s, CopyByte(0, p, bytes[0]));
            && t.Some? && |t.value.copying| > 0 && |t.value.vmem| == |s.vmem|
            && Copied(c, t.value, p + 1, bytes[1..]) == Copied(c, s, p, bytes)
  {
    hide Overwritten, PageOf;
    OverwriteOne(s.vmem, p, bytes);
    var first, others := {PageOf(c.width, p)}, PagesFrom(c.width, p + 1, |bytes| - 1);
    assert (s.copying[0] + first) + others == s.copying[0] + (first + others);
  }

  lemma CopiedNothing(c: Screen, s: State, p: nat)
    requires |s.copying| > 0 && p <= |s.vmem|
    ensures Copied(c, s, p, []) == s
  {
    assert s.copying[0] + {} == s.copying[0];
    assert s.copying[0 := s.copying[0]] == s.copying;
  }

  lemma {:induction false} RunCopies(c: Screen, s: State, p: nat, bytes: seq<byte>)
    requires WellFormed(c, s) && |s.copying| > 0 && p + |bytes| <= |s.vmem|
    ensures Run(c, s, Copies(p, bytes)) == Some(Copied(c, s, p, bytes))
    decreases |bytes|
  {
    hide WellFormed, Copied, Step;
    if bytes == [] {
      CopiedNothing(c, s, p);
    } else {
      var a := CopyByte(0, p, bytes[0]);
      CopyOne(c, s, p, bytes);
      StepWellFormed(c, s, a);
      RunCopies(c, Step(c, s, a).value, p + 1, bytes[1..]);
      RunOne(c, s, a);
      RunAppend(c, s, [a], Copies(p + 1, bytes[1..]));
    }
  }

  /** What a write that nobody interrupts does. */
  lemma RunWrite(c: Screen, s: State, p: nat, bytes: seq<byte>)
    requires WellFormed(c, s) && s.copying == [{}] && p + |bytes| <= |s.vmem| && bytes != []
    ensures var t := s.(vmem := Overwritten(s.vmem, p, bytes), flags := Mask(c.pages));
            Run(c, s, WriteSteps(p, bytes)) == Some(t) && WellFormed(c, t)
  {
    hide Overwritten, Copies, Mask, PageOf;
    assert PageOf(c.width, p) in PagesFrom(c.width, p, |bytes|);
    RunCopies(c, s, p, bytes);
    RunAppend(c, s, Copies(p, bytes), [MarkAll(0)]);
    var s1 := Run(c, s, Copies(p, bytes)).value;
    RunOne(c, s1, MarkAll(0));
    StepWellFormed(c, s1, MarkAll(0));
    assert s1.copying[0 := {}] == s.copying;
  }

  /** The part of the controller's memory that the screen shows starts at a column its commands can name. */
  predicate Fits(screen: Screen, segmentOffset: nat, chip: Chip, columns: nat)
  {
    && screen.Valid() && HasColumns(chip, columns) && segmentOffset < 16 && segmentOffset + screen.width <= columns
  }

  /** What the screen shows, page by page. */
  function Shown(screen: Screen, segmentOffset: nat, chip: Chip, columns: nat): (shown: seq<seq<bool>>)
    requires Fits(screen, segmentOffset, chip, columns)
    ensures |shown| == screen.pages
  {
    seq(screen.pages, p requires 0 <= p < screen.pages =>
      BitsOf(chip.rows[p][segmentOffset..segmentOffset + screen.width]))
  }

  /** Painting a page shows its bytes, and changes no other page. */
  lemma PaintedShows(screen: Screen, segmentOffset: nat, chip: Chip, columns: nat, page: nat, data: seq<byte>)
    requires Fits(screen, segmentOffset, chip, columns) && page < screen.pages && |data| == screen.width
    ensures var painted := Painted(chip, page, segmentOffset, data);
            && Fits(screen, segmentOffset, painted, columns)
            && Shown(screen, segmentOffset, painted, columns)
               == Shown(screen, segmentOffset, chip, columns)[page := BitsOf(data)]
  {
    hide BitsOf;
    var painted := Painted(chip, page, segmentOffset, data);
    assert painted.rows[page][segmentOffset..segmentOffset + screen.width] == data;
  }

  class Display {
    const screen: Screen
    const vmem: array<byte>
    const segmentOffset: nat
    const columns: nat
    var modifiedPages: seq<bool>
    var nextPageUpdate: nat
    var chip: Chip

    ghost predicate Valid()
      reads this, vmem
    {
      Fits(screen, segmentOffset, chip, columns) && WellFormed(screen, View())
    }

    ghost function View(): State
      requires Fits(screen, segmentOffset, chip, columns)
      reads this, vmem
    {
      State(vmem[..], modifiedPages, [{}], Resting, nextPageUpdate, Shown(screen, segmentOffset, chip, columns), [])
    }

    constructor (screen: Screen, segmentOffset: nat, chip: Chip, columns: nat)
      requires Fits(screen, segmentOffset, chip, columns)
      ensures Valid() && fresh(vmem) && Initial(this.screen, View()) && this.screen == screen && this.chip == chip
    {
      this.screen, this.segmentOffset, this.chip, this.columns := screen, segmentOffset, chip, columns;
      vmem := new byte[screen.pages * screen.width](_ => 0);
      modifiedPages, nextPageUpdate := Mask(screen.pages), 0;
    }

    /**
     Writes as much of buf as fits at position p, then marks all pages; returns how much, or an error, and the position
     behind it.
     */
    method Write(buf: seq<byte>, p: nat) returns (result: int, next: nat)
      requires Valid()
      modifies this`modifiedPages, vmem
      ensures Valid()
      ensures p > vmem.Length || p == vmem.Length || buf == [] ==>
                result == -EINVAL && next == p && View() == old(View())
      ensures p < vmem.Length && buf != [] ==>
                && result == (if p + |buf| > vmem.Length then vmem.Length - p else |buf|) && next == p + result
                && vmem[..] == old(vmem[..p]) + buf[..result] + old(vmem[p + result..])
                && Run(screen, old(View()), WriteSteps(p, buf[..result])) == Some(View())
    {
      hide Run, WellFormed;
      if p > vmem.Length {
        return -EINVAL, p;
      }
      var count := |buf|;
      if count + p > vmem.Length {
        count := vmem.Length - p;
      }
      if count == 0 {
        return -EINVAL, p;
      }
      ghost var before := vmem[..];
      RunWrite(screen, View(), p, buf[..count]);
      forall i | 0 <= i < count {
        vmem[p + i] := buf[i];
      }
      assert vmem[..] == before[..p] + buf[..count] + before[p + count..];
      modifiedPages := Mask(screen.pages);
      return count, p + count;
    }

    /** The work item: sends one marked page, if there is one. */
    method FramesHandler()
      requires Valid()
      modifies this`modifiedPages, this`nextPageUpdate, this`chip
      ensures Valid()
      ensures !SomeDirty(old(modifiedPages)) ==> View() == old(View())
      ensures SomeDirty(old(modifiedPages)) ==>
                && View() == Updated(screen, old(View())).(sent := [])
                && Run(screen, old(View()), Update(screen.width)) == Some(Updated(screen, old(View())))
    {
      hide PageBits, PageBit, After, NextDirty, Run, Updated, SomeDirty, HasPage, Update;
      if !SomeDirty(modifiedPages) {
        return;
      }
      RunUpdate(screen, View());
      UpdatedIs(screen, View());
      DirtyPageExists(screen, View());
      var page := FindPage(modifiedPages, nextPageUpdate);
      PageFits(screen, page);
      modifiedPages := modifiedPages[page := false];
      SendPage(page);
      nextPageUpdate := After(page, screen.pages);
    }

    /** Sends a page; the controller makes of the transfer what it can. */
    method SendPage(page: nat)
      requires Fits(screen, segmentOffset, chip, columns) && page < screen.pages
      requires HasPage(vmem[..], screen.width, page)
      modifies this`chip
      ensures Fits(screen, segmentOffset, chip, columns)
      ensures Shown(screen, segmentOffset, chip, columns)
              == Shown(screen, segmentOffset, old(chip), columns)[page := PageBits(vmem[..], screen.width, page)]
    {
      hide PageBits, PageBit, BitsOf, Receive, Header, Shown, Painted;
      var data := BuildPage(vmem, screen.width, page, segmentOffset);
      ghost var bytes := data[6..];
      assert [0x80] + data[..] == Header(page, segmentOffset) + bytes by {
        assert data[..] == data[..6] + bytes;
      }
      Transferred(chip, page, segmentOffset, bytes, columns);
      PaintedShows(screen, segmentOffset, chip, columns, page, bytes);
      chip := Receive(chip, [0x80] + data[..]).value;
    }
  }

  // ----- coming to rest -----

  function Marked(flags: seq<bool>): nat
  {
    if flags == [] then 0 else Marked(flags[1..]) + if flags[0] then 1 else 0
  }

  lemma {:induction false} UnmarkOne(flags: seq<bool>, p: nat)
    requires p < |flags| && flags[p]
    ensures Marked(flags[p := false]) == Marked(flags) - 1
    decreases |flags|
  {
    var after := flags[p := false];
    if p > 0 {
      assert after[1..] == flags[1..][p - 1 := false];
      UnmarkOne(flags[1..], p - 1);
    } else {
      assert after[1..] == flags[1..];
    }
  }

  lemma {:induction false} NoneMarked(flags: seq<bool>)
    ensures Marked(flags) == 0 <==> forall p | 0 <= p < |flags| :: !flags[p]
    decreases |flags|
  {
    if flags != [] {
      NoneMarked(flags[1..]);
      assert flags == [flags[0]] + flags[1..];
    }
  }

  function Updates(width: nat, n: nat): seq<Action>
  {
    if n == 0 then [] else Update(width) + Updates(width, n - 1)
  }

  /** Once the writers are done, as many updates as there are marked pages bring the whole display up to date. */
  lemma {:induction false} ComesToRest(c: Screen, s: State, n: nat)
    requires WellFormed(c, s) && NothingForgotten(c, s) && s.flusher == Resting && !SomeCopying(s)
    requires n == Marked(s.flags)
    ensures Run(c, s, Updates(c.width, n)).Some?
    ensures var t := Run(c, s, Updates(c.width, n)).value;
            && t.vmem == s.vmem && |t.shown| == c.pages
            && forall page | 0 <= page < c.pages ::
                 HasPage(s.vmem, c.width, page) && t.shown[page] == PageBits(s.vmem, c.width, page)
    decreases n
  {
    hide PageBit, PageBits, NextDirty, After, Update;
    NoneMarked(s.flags);
    if n == 0 {
      forall page | 0 <= page < c.pages
        ensures HasPage(s.vmem, c.width, page) && s.shown[page] == PageBits(s.vmem, c.width, page)
      {
        PageFits(c, page);
        assert s.flags[page] || Touched(s, page) || UpToDate(c, s, page);
      }
    } else {
      RunUpdate(c, s);
      RunKeeps(c, s, Update(c.width));
      DirtyPageExists(c, s);
      UnmarkOne(s.flags, NextDirty(s.flags, s.next));
      RunAppend(c, s, Update(c.width), Updates(c.width, n - 1));
      ComesToRest(c, Updated(c, s), n - 1);
    }
  }
}
