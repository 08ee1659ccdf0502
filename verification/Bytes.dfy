/** Bytes, machine words and the small datatypes shared by the models of the C sources. */
module Bytes {
  type byte = x: int | 0 <= x < 0x100
  type uint16 = x: int | 0 <= x < 0x1_0000
  type uint32 = x: int | 0 <= x < 0x1_0000_0000

  const U32 := 0x1_0000_0000

  datatype Option<+T> = None | Some(value: T)

  function Repeat<T>(x: T, n: nat): (s: seq<T>)
    ensures |s| == n
  {
    seq(n, _ => x)
  }

  /** Parts, one after the other. */
  function Concat<T>(parts: seq<seq<T>>): seq<T>
  {
    if parts == [] then [] else parts[0] + Concat(parts[1..])
  }

  lemma {:induction false} ConcatLast<T>(parts: seq<seq<T>>, last: seq<T>)
    ensures Concat(parts + [last]) == Concat(parts) + last
    decreases |parts|
  {
    if parts == [] {
      assert parts + [last] == [last];
    } else {
      ConcatLast(parts[1..], last);
      assert (parts + [last])[1..] == parts[1..] + [last];
    }
  }

  /** The bytes of src at ip are those of e. */
  ghost predicate At(src: seq<byte>, ip: nat, e: seq<byte>)
  {
    ip + |e| <= |src| && forall i | 0 <= i < |e| :: e[i] == src[ip + i]
  }

  lemma AtParts(src: seq<byte>, ip: nat, a: seq<byte>, b: seq<byte>)
    requires At(src, ip, a + b)
    ensures At(src, ip, a) && At(src, ip + |a|, b)
  {
    forall i | 0 <= i < |a|
      ensures a[i] == src[ip + i]
    {
      assert (a + b)[i] == a[i];
    }
    forall i | 0 <= i < |b|
      ensures b[i] == src[ip + |a| + i]
    {
      assert (a + b)[|a| + i] == b[i];
    }
  }
}
