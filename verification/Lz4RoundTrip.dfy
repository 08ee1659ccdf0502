/** The two halves of the codec together, as saving and loading a track uses them. */
module Lz4RoundTrip {
  import opened Bytes
  import opened Lz4Counters
  import opened Lz4Format
  import opened Lz4Compress
  import opened Lz4Decompress

  /**
   Packs unpacked into a buffer of the compression bound, then unpacks the packed bytes into a buffer with room for
   at least as many bytes as there were: the size and the contents come back.
   */
  method PackAndUnpack(unpacked: seq<byte>, sourceAddress: nat, acceleration: int, capacity: nat, address: nat)
    returns (packedSize: nat, out: array<byte>, result: Outcome)
    requires |unpacked| <= MAX_INPUT_SIZE && |unpacked| <= capacity < 0x8000_0000 && Placed(address, capacity)
    ensures 0 < packedSize <= |unpacked| + |unpacked| / 255 + 16
    ensures out.Length == capacity
    ensures result == Returns(|unpacked|) && out[..|unpacked|] == unpacked
  {
    var packed := new byte[CompressBound(|unpacked|)];
    packedSize := CompressFast(unpacked, packed, sourceAddress, acceleration);
    var block := packed[..packedSize];
    if capacity > 0 {
      ConformingAccepted(block, 0, 0, |unpacked|, capacity, address);
    }
    out := new byte[capacity];
    result := DecompressSafe(block, out, address);
  }
}
