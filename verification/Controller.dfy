/**
 The display controller, as far as the driver talks to it: a transfer is a row of control bytes, each followed by one
 command, or by data up to its end; data go to a page, column after column.
 */
module Controller {
  import opened Bytes

  const PAGES := 8

  /** Where the next data byte goes, and the bytes of each page. */
  datatype Chip = Chip(page: nat, column: nat, rows: seq<seq<byte>>)

  predicate HasColumns(c: Chip, columns: nat)
  {
    && c.page < PAGES && c.column < 0x100 && columns <= 0x100 && |c.rows| == PAGES
    && forall p | 0 <= p < PAGES :: |c.rows[p]| == columns
  }

  /** Page, lower and higher half of the column; other commands are not part of this model. */
  function Command(c: Chip, b: byte): Option<Chip>
  {
    if 0xB0 <= b < 0xB8 then Some(c.(page := b - 0xB0))
    else if b < 0x10 then Some(c.(column := c.column / 16 * 16 + b))
    else if b < 0x20 then Some(c.(column := (b - 0x10) * 16 + c.column % 16))
    else None
  }

  /** A data byte; the column counts up, and from the last one on to the first. */
  function Store(c: Chip, b: byte): Chip
    requires c.page < |c.rows|
  {
    var row := c.rows[c.page];
    if c.column < |row| then
      c.(rows := c.rows[c.page := row[c.column := b]], column := if c.column + 1 == |row| then 0 else c.column + 1)
    else c
  }

  function StoreAll(c: Chip, data: seq<byte>): Chip
    requires c.page < |c.rows|
    decreases |data|
  {
    if data == [] then c else StoreAll(Store(c, data[0]), data[1..])
  }

  /** What a transfer does: 0x80 announces one command, 0x40 nothing but data. */
  function Receive(c: Chip, s: seq<byte>): Option<Chip>
    requires |c.rows| == PAGES && c.page < PAGES
    decreases |s|
  {
    if s == [] then Some(c)
    else if s[0] == 0x40 then Some(StoreAll(c, s[1..]))
    else if s[0] == 0x80 && |s| >= 2 then
      match Command(c, s[1])
      case None => None
      case Some(d) => Receive(d, s[2..])
    else None
  }

  /** The page with data from a column on. */
  function Painted(c: Chip, page: nat, column: nat, data: seq<byte>): Chip
    requires page < |c.rows| && column + |data| <= |c.rows[page]|
  {
    var row, end := c.rows[page], column + |data|;
    Chip(page, if data != [] && end == |row| then 0 else end, c.rows[page := row[..column] + data + row[end..]])
  }

  lemma {:induction false} StoresAll(c: Chip, data: seq<byte>)
    requires c.page < |c.rows| && c.column + |data| <= |c.rows[c.page]|
    ensures StoreAll(c, data) == Painted(c, c.page, c.column, data)
    decreases |data|
  {
    var row := c.rows[c.page];
    if data == [] {
      assert row[..c.column] + [] + row[c.column..] == row;
      assert c.rows[c.page := row] == c.rows;
    } else {
      var d := Store(c, data[0]);
      if |data| == 1 {
        assert data[1..] == [];
        assert StoreAll(d, data[1..]) == d;
        assert row[..c.column] + data + row[c.column + 1..] == row[c.column := data[0]];
      } else {
        StoresAll(d, data[1..]);
        PaintedMore(row, c.column, data);
        assert d.rows[c.page] == row[c.column := data[0]];
        var painted := row[..c.column] + data + row[c.column + |data|..];
        assert c.rows[c.page := row[c.column := data[0]]][c.page := painted] == c.rows[c.page := painted];
      }
    }
  }

  lemma PaintedMore(row: seq<byte>, at: nat, data: seq<byte>)
    requires data != [] && at + |data| <= |row|
    ensures var r := row[at := data[0]];
            r[..at + 1] + data[1..] + r[at + |data|..] == row[..at] + data + row[at + |data|..]
  {
  }

  /** The first bytes of the transfer of a page: its number, the column in two halves, and the start of the data. */
  function Header(page: nat, offset: nat): seq<byte>
    requires page < PAGES
  {
    [0x80, 0xB0 + page, 0x80, offset % 0x100, 0x80, HighColumn(offset / 0x100 % 0x100), 0x40]
  }

  /** 0x10 | b. */
  function HighColumn(b: byte): byte
  {
    if b / 16 % 2 == 1 then b else b + 0x10
  }

  /** Where the header puts the cursor, if it is understood. */
  function Aimed(c: Chip, page: nat, offset: nat): Option<Chip>
  {
    match Command(c.(page := page), offset % 0x100)
    case None => None
    case Some(d) => Command(d, HighColumn(offset / 0x100 % 0x100))
  }

  lemma CommandFirst(c: Chip, b: byte, rest: seq<byte>)
    requires |c.rows| == PAGES && c.page < PAGES
    ensures Command(c, b).None? ==> Receive(c, [0x80, b] + rest) == None
    ensures Command(c, b).Some? ==>
              && |Command(c, b).value.rows| == PAGES && Command(c, b).value.page < PAGES
              && Receive(c, [0x80, b] + rest) == Receive(Command(c, b).value, rest)
  {
    assert ([0x80, b] + rest)[2..] == rest;
  }

  lemma DataFirst(c: Chip, data: seq<byte>)
    requires |c.rows| == PAGES && c.page < PAGES
    ensures Receive(c, [0x40] + data) == Some(StoreAll(c, data))
  {
    hide StoreAll;
    assert ([0x40] + data)[1..] == data;
  }

  lemma HeaderIs(c: Chip, page: nat, offset: nat, data: seq<byte>)
    requires |c.rows| == PAGES && c.page < PAGES && page < PAGES
    ensures Aimed(c, page, offset).Some? ==>
              && Aimed(c, page, offset).value.page < |Aimed(c, page, offset).value.rows|
              && Receive(c, Header(page, offset) + data) == Some(StoreAll(Aimed(c, page, offset).value, data))
    ensures Aimed(c, page, offset).None? ==> Receive(c, Header(page, offset) + data) == None
  {
    hide StoreAll, HighColumn, Receive;
    var low, high := offset % 0x100, HighColumn(offset / 0x100 % 0x100);
    var s3 := [0x40] + data;
    var s2 := [0x80, high] + s3;
    var s1 := [0x80, low] + s2;
    assert Header(page, offset) + data == [0x80, 0xB0 + page] + s1;
    CommandFirst(c, 0xB0 + page, s1);
    var d := c.(page := page);
    assert Command(c, 0xB0 + page) == Some(d);
    CommandFirst(d, low, s2);
    if Command(d, low).Some? {
      CommandFirst(Command(d, low).value, high, s3);
    }
    if Aimed(c, page, offset).Some? {
      DataFirst(Aimed(c, page, offset).value, data);
    }
  }

  /** Offsets below 16 are met; of larger ones the commands make something else, wherever the cursor was before. */
  lemma AimedExactly(c: Chip, page: nat, offset: nat)
    requires c.column < 0x100
    ensures offset < 16 ==> Aimed(c, page, offset) == Some(c.(page := page, column := offset))
    ensures offset >= 16 ==> Aimed(c.(column := 0), page, offset) != Some(c.(page := page, column := offset))
                             || Aimed(c.(column := 1), page, offset) != Some(c.(page := page, column := offset))
  {
  }

  /** Where the cursor is n data bytes later. */
  function Advance(column: nat, n: nat, columns: nat): nat
    decreases n
  {
    if n == 0 || column >= columns then column
    else Advance(if column + 1 == columns then 0 else column + 1, n - 1, columns)
  }

  lemma {:induction false} StoresAdvance(c: Chip, data: seq<byte>, columns: nat)
    requires c.page < |c.rows| && |c.rows[c.page]| == columns
    ensures StoreAll(c, data).column == Advance(c.column, |data|, columns)
    decreases |data|
  {
    if data != [] {
      StoresAdvance(Store(c, data[0]), data[1..], columns);
      if c.column >= columns {
        assert Store(c, data[0]) == c;
      }
    }
  }

  lemma {:induction false} AdvanceApart(a: nat, b: nat, n: nat, columns: nat)
    requires a != b && b < columns
    ensures Advance(a, n, columns) != Advance(b, n, columns)
    ensures Advance(b, n, columns) < columns
    decreases n
  {
    if n > 0 {
      var b1 := if b + 1 == columns then 0 else b + 1;
      var a1 := if a >= columns then a else if a + 1 == columns then 0 else a + 1;
      AdvanceApart(a1, b1, n - 1, columns);
    }
  }

  lemma {:induction false} PageStays(c: Chip, data: seq<byte>)
    requires c.page < |c.rows|
    ensures StoreAll(c, data).page == c.page
    decreases |data|
  {
    if data != [] {
      PageStays(Store(c, data[0]), data[1..]);
    }
  }

  /** From another place on, the cursor ends elsewhere. */
  lemma Elsewhere(c: Chip, d: Chip, page: nat, offset: nat, data: seq<byte>)
    requires c.rows == d.rows && page < |c.rows| && d.page < |d.rows| && offset + |data| <= |c.rows[page]|
    requires d.page != page || d.column != offset
    requires data != []
    ensures StoreAll(d, data) != Painted(c, page, offset, data)
  {
    hide StoreAll;
    PageStays(d, data);
    if d.page == page {
      var columns, there := |c.rows[page]|, c.(page := page, column := offset);
      StoresAdvance(d, data, columns);
      StoresAdvance(there, data, columns);
      StoresAll(there, data);
      AdvanceApart(d.column, offset, |data|, columns);
    }
  }

  /** The transfer of a page puts its bytes where the offset says. */
  ghost predicate Paints(page: nat, offset: nat, data: seq<byte>, columns: nat)
    requires page < PAGES && offset + |data| <= columns
  {
    forall c: Chip :: HasColumns(c, columns) ==>
                        Receive(c, Header(page, offset) + data) == Some(Painted(c, page, offset, data))
  }

  lemma Transferred(c: Chip, page: nat, offset: nat, data: seq<byte>, columns: nat)
    requires page < PAGES && offset < 16 && offset + |data| <= columns && HasColumns(c, columns)
    ensures Receive(c, Header(page, offset) + data) == Some(Painted(c, page, offset, data))
  {
    hide StoreAll, Receive, Aimed, Header, Painted;
    HeaderIs(c, page, offset, data);
    AimedExactly(c, page, offset);
    StoresAll(c.(page := page, column := offset), data);
    SamePainting(c, c.(page := page, column := offset), page, offset, data);
  }

  /** It does exactly for offsets below 16: the lower half of a larger one is no command for the lower half. */
  lemma PaintsExactly(page: nat, offset: nat, data: seq<byte>, columns: nat)
    requires page < PAGES && offset + |data| <= columns <= 0x100 && data != []
    ensures Paints(page, offset, data, columns) <==> offset < 16
  {
    hide StoreAll, Receive, Aimed, Header, Painted;
    if offset < 16 {
      forall c: Chip | HasColumns(c, columns)
        ensures Receive(c, Header(page, offset) + data) == Some(Painted(c, page, offset, data))
      {
        Transferred(c, page, offset, data, columns);
      }
    } else {
      var c := Missed(page, offset, columns);
      HeaderIs(c, page, offset, data);
      var aimed := Aimed(c, page, offset);
      if aimed.Some? {
        RowsStay(c, page, offset);
        Elsewhere(c, aimed.value, page, offset, data);
      }
    }
  }

  /** A chip whose cursor does not come to lie where it should. */
  lemma Missed(page: nat, offset: nat, columns: nat) returns (c: Chip)
    requires offset >= 16 && columns <= 0x100
    ensures HasColumns(c, columns) && Aimed(c, page, offset) != Some(c.(page := page, column := offset))
  {
    c := Chip(0, 0, seq(PAGES, _ => seq(columns, _ => 0)));
    AimedExactly(c, page, offset);
    if Aimed(c, page, offset) == Some(c.(page := page, column := offset)) {
      c := c.(column := 1);
    }
  }

  lemma RowsStay(c: Chip, page: nat, offset: nat)
    requires Aimed(c, page, offset).Some?
    ensures Aimed(c, page, offset).value.rows == c.rows
  {
  }

  lemma SamePainting(c: Chip, d: Chip, page: nat, column: nat, data: seq<byte>)
    requires c.rows == d.rows && page < |c.rows| && column + |data| <= |c.rows[page]|
    ensures Painted(c, page, column, data) == Painted(d, page, column, data)
  {
  }
}
