/** Reading a socket byte by byte through a buffer, however the bytes come in. */
module ByteReader {
  import opened Bytes

  /** What next_byte works on: the buffer, and incoming, the results of the calls of recv to come. */
  class Reader {
    const frm: array<byte>
    var curPos: nat
    var amtRead: nat
    var error: bool
    var incoming: seq<seq<byte>>

    ghost predicate Valid()
      reads this
    {
      && curPos <= amtRead <= frm.Length
      && forall i | 0 <= i < |incoming| :: 0 < |incoming[i]| <= frm.Length
    }

    /** The bytes that are still to be read. */
    ghost function Stream(): seq<byte>
      reads this, frm
      requires Valid()
    {
      (if curPos == 0 then [] else frm[curPos..amtRead]) + Concat(incoming)
    }

    constructor (capacity: nat, incoming: seq<seq<byte>>)
      requires forall i | 0 <= i < |incoming| :: 0 < |incoming[i]| <= capacity
      ensures Valid() && fresh(frm) && !error && Stream() == Concat(incoming)
    {
      frm := new byte[capacity](_ => 0);
      curPos, amtRead, error, this.incoming := 0, 0, false, incoming;
    }

    /** One call of recv: the next chunk, if there is one. */
    method Recv() returns (n: nat)
      requires Valid()
      modifies this`incoming, frm
      ensures n == 0 <==> old(incoming) == []
      ensures n == 0 ==> incoming == old(incoming) && frm[..] == old(frm[..])
      ensures n > 0 ==> n <= frm.Length && frm[..n] == old(incoming)[0] && incoming == old(incoming)[1..]
    {
      if incoming == [] {
        return 0;
      }
      var chunk := incoming[0];
      forall i | 0 <= i < |chunk| {
        frm[i] := chunk[i];
      }
      incoming := incoming[1..];
      return |chunk|;
    }

    /** Fills the buffer when it is empty or used up; false at the end of the stream. */
    method Refill() returns (ok: bool)
      requires Valid()
      modifies this, frm
      ensures Valid() && error == old(error)
      ensures !ok ==> old(Stream()) == [] && Stream() == []
      ensures ok ==> curPos < amtRead && frm[curPos..amtRead] + Concat(incoming) == old(Stream())
    {
      hide Concat;
      ok := true;
      if curPos == 0 || curPos == amtRead {
        NothingMore();
        FirstChunk(incoming);
        var n := Recv();
        if n == 0 {
          return false;
        }
        amtRead := n;
        curPos := 0;
        assert frm[0..n] == frm[..n];
      }
    }

    /** The next byte of the stream; -1, and the error mark, at its end. */
    method NextByte() returns (b: int)
      requires Valid()
      modifies this, frm
      ensures Valid()
      ensures old(Stream()) == [] ==> b == -1 && error && Stream() == []
      ensures old(Stream()) != [] ==> b == old(Stream())[0] && Stream() == old(Stream())[1..] && error == old(error)
    {
      hide Concat;
      ghost var s := Stream();
      var ok := Refill();
      if !ok {
        error := true;
        return -1;
      }
      b := frm[curPos];
      assert frm[curPos..amtRead] == [b] + frm[curPos + 1..amtRead];
      curPos := curPos + 1;
      assert s == [b] + (frm[curPos..amtRead] + Concat(incoming));
    }
  }

  lemma NothingMore()
    ensures Concat<byte>([]) == []
  {
  }

  lemma FirstChunk(chunks: seq<seq<byte>>)
    ensures chunks != [] ==> Concat(chunks) == chunks[0] + Concat(chunks[1..])
  {
  }
}
