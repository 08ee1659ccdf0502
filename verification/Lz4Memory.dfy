/** The memory primitives both halves of the codec are written with: memcpy and the 8-byte wild copy. */
module Lz4Memory {
  import opened Bytes

  /** memcpy from an input buffer into an output buffer. */
  method CopyIn(dst: array<byte>, d: nat, src: seq<byte>, s: nat, n: nat)
    requires d + n <= dst.Length && s + n <= |src|
    modifies dst
    ensures forall p | d <= p < d + n :: dst[p] == src[p - d + s]
    ensures forall i | 0 <= i < dst.Length && !(d <= i < d + n) :: dst[i] == old(dst[i])
  {
    forall i | 0 <= i < n {
      dst[d + i] := src[s + i];
    }
  }

  /** memcpy inside the output buffer; like memcpy, only for ranges that do not overlap. */
  method CopyWithin(dst: array<byte>, d: nat, s: nat, n: nat)
    requires s + n <= d && d + n <= dst.Length
    modifies dst
    ensures forall p | d <= p < d + n :: dst[p] == old(dst[p - d + s])
    ensures forall i | 0 <= i < dst.Length && !(d <= i < d + n) :: dst[i] == old(dst[i])
  {
    forall i | 0 <= i < n {
      dst[d + i] := dst[s + i];
    }
  }

  /** Copies n bytes in blocks of eight, at least one block, possibly writing past the end. */
  method WildCopyIn(dst: array<byte>, d0: nat, src: seq<byte>, s0: nat, n: nat)
    requires d0 + n + 8 <= dst.Length && s0 + n + 8 <= |src|
    modifies dst
    ensures dst[..d0 + n] == old(dst[..d0]) + src[s0..s0 + n]
  {
    var d, s, e := d0 + 8, s0 + 8, d0 + n;
    CopyIn(dst, d0, src, s0, 8);
    while d < e
      invariant d0 + 8 <= d && d - d0 == s - s0 && (d <= d0 + 8 || d < e + 8)
      invariant forall p | d0 <= p < d :: dst[p] == src[p - d0 + s0]
      invariant forall i | 0 <= i < d0 :: dst[i] == old(dst[i])
    {
      CopyIn(dst, d, src, s, 8);
      d, s := d + 8, s + 8;
    }
  }

  /** The wild copy inside the output, from a source at least eight bytes back. */
  method WildCopyWithin(dst: array<byte>, d0: nat, s0: nat, e: nat)
    requires s0 + 8 <= d0 && d0 + 8 <= dst.Length && e + 7 <= dst.Length
    modifies dst
    ensures forall p | d0 <= p < e :: dst[p] == dst[p - (d0 - s0)]
    ensures forall p | 0 <= p < d0 :: dst[p] == old(dst[p])
  {
    var d, s := d0 + 8, s0 + 8;
    CopyWithin(dst, d0, s0, 8);
    while d < e
      invariant d0 + 8 <= d && d - d0 == s - s0 && (d <= d0 + 8 || d < e + 8)
      invariant forall p | d0 <= p < d :: dst[p] == dst[p - (d0 - s0)]
      invariant forall p | 0 <= p < d0 :: dst[p] == old(dst[p])
    {
      CopyWithin(dst, d, s, 8);
      d, s := d + 8, s + 8;
    }
  }
}
