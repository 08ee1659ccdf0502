/** The CRC-32 of chunk blocks: a table-driven loop, and the shift register of section 8 of RFC 1952 it stands for. */
module Crc32 {
  // ----- the register, one bit at a time -----

  const POLYNOMIAL: bv32 := 0xEDB88320

  // The proofs below hide these operations, so that the solver sees bit-vectors only in the smallest lemmas.

  function Xor(a: bv32, b: bv32): bv32 { a ^ b }

  predicate Odd(c: bv32) { c & 1 == 1 }

  function Half(c: bv32): bv32 { c >> 1 }

  function LowByte(c: bv32): bv32 { c & 0xFF }

  function UpperBytes(c: bv32): bv32 { c & 0xFFFF_FF00 }

  function Down8(c: bv32): bv32 { c >> 8 }

  /** One step: the lowest bit leaves the register and feeds back the polynomial. */
  function Shift1(c: bv32): bv32
  {
    if Odd(c) then Xor(Half(c), POLYNOMIAL) else Half(c)
  }

  function Shift2(c: bv32): bv32 { Shift1(Shift1(c)) }

  function Shift4(c: bv32): bv32 { Shift2(Shift2(c)) }

  function Shift8(c: bv32): bv32 { Shift4(Shift4(c)) }

  lemma XorHalf(a: bv32, b: bv32)
    ensures Half(Xor(a, b)) == Xor(Half(a), Half(b))
  {
  }

  lemma XorOdd(a: bv32, b: bv32)
    ensures Odd(Xor(a, b)) <==> Odd(a) != Odd(b)
  {
  }

  lemma XorAssociates(a: bv32, b: bv32, p: bv32)
    ensures Xor(a, Xor(b, p)) == Xor(Xor(a, b), p)
  {
  }

  lemma XorCommutes(a: bv32, b: bv32)
    ensures Xor(a, b) == Xor(b, a)
  {
  }

  lemma XorZero(c: bv32)
    ensures Xor(c, 0) == c && Xor(c, c) == 0
  {
  }

  lemma XorLaws(a: bv32, b: bv32, p: bv32)
    ensures Xor(Xor(a, p), Xor(b, p)) == Xor(a, b)
    ensures Xor(Xor(a, p), b) == Xor(a, Xor(b, p)) == Xor(Xor(a, b), p)
  {
    hide Xor;
    XorAssociates(a, b, p);
    XorAssociates(a, p, b);
    XorCommutes(b, p);
    XorAssociates(Xor(a, p), p, b);
    XorAssociates(a, p, p);
    XorZero(p);
    XorZero(a);
  }

  /** The register is linear. */
  lemma Shift1Xor(a: bv32, b: bv32)
    ensures Shift1(Xor(a, b)) == Xor(Shift1(a), Shift1(b))
  {
    hide Xor, Odd, Half;
    XorOdd(a, b);
    XorHalf(a, b);
    XorLaws(Half(a), Half(b), POLYNOMIAL);
  }

  lemma Shift4Xor(a: bv32, b: bv32)
    ensures Shift4(Xor(a, b)) == Xor(Shift4(a), Shift4(b))
  {
    hide Shift1, Xor;
    Shift1Xor(a, b);
    Shift1Xor(Shift1(a), Shift1(b));
    Shift1Xor(Shift2(a), Shift2(b));
    Shift1Xor(Shift1(Shift2(a)), Shift1(Shift2(b)));
  }

  lemma Shift8Xor(a: bv32, b: bv32)
    ensures Shift8(Xor(a, b)) == Xor(Shift8(a), Shift8(b))
  {
    hide Shift4, Xor;
    Shift4Xor(a, b);
    Shift4Xor(Shift4(a), Shift4(b));
  }

  lemma Parts(c: bv32)
    ensures Xor(LowByte(c), UpperBytes(c)) == c && Down8(UpperBytes(c)) == Down8(c)
  {
  }

  lemma UpperShift(c: bv32)
    requires c & 0xFF == 0
    ensures Shift8(c) == Down8(c)
  {
  }

  lemma NoLowByte(c: bv32)
    ensures UpperBytes(c) & 0xFF == 0
  {
  }

  /** Eight steps move the upper bytes down and add what the lowest byte turns into. */
  lemma Shift8Parts(c: bv32)
    ensures Shift8(c) == Xor(Shift8(LowByte(c)), Down8(c))
  {
    hide Shift8, Xor, LowByte, UpperBytes, Down8;
    Parts(c);
    NoLowByte(c);
    UpperShift(UpperBytes(c));
    Shift8Xor(LowByte(c), UpperBytes(c));
  }

  // ----- the table, in rows of sixteen -----

  const ROW0: seq<bv32> := [
    0x00000000, 0x77073096, 0xee0e612c, 0x990951ba, 0x076dc419, 0x706af48f, 0xe963a535, 0x9e6495a3,
    0x0edb8832, 0x79dcb8a4, 0xe0d5e91e, 0x97d2d988, 0x09b64c2b, 0x7eb17cbd, 0xe7b82d07, 0x90bf1d91
  ]
  const ROW1: seq<bv32> := [
    0x1db71064, 0x6ab020f2, 0xf3b97148, 0x84be41de, 0x1adad47d, 0x6ddde4eb, 0xf4d4b551, 0x83d385c7,
    0x136c9856, 0x646ba8c0, 0xfd62f97a, 0x8a65c9ec, 0x14015c4f, 0x63066cd9, 0xfa0f3d63, 0x8d080df5
  ]
  const ROW2: seq<bv32> := [
    0x3b6e20c8, 0x4c69105e, 0xd56041e4, 0xa2677172, 0x3c03e4d1, 0x4b04d447, 0xd20d85fd, 0xa50ab56b,
    0x35b5a8fa, 0x42b2986c, 0xdbbbc9d6, 0xacbcf940, 0x32d86ce3, 0x45df5c75, 0xdcd60dcf, 0xabd13d59
  ]
  const ROW3: seq<bv32> := [
    0x26d930ac, 0x51de003a, 0xc8d75180, 0xbfd06116, 0x21b4f4b5, 0x56b3c423, 0xcfba9599, 0xb8bda50f,
    0x2802b89e, 0x5f058808, 0xc60cd9b2, 0xb10be924, 0x2f6f7c87, 0x58684c11, 0xc1611dab, 0xb6662d3d
  ]
  const ROW4: seq<bv32> := [
    0x76dc4190, 0x01db7106, 0x98d220bc, 0xefd5102a, 0x71b18589, 0x06b6b51f, 0x9fbfe4a5, 0xe8b8d433,
    0x7807c9a2, 0x0f00f934, 0x9609a88e, 0xe10e9818, 0x7f6a0dbb, 0x086d3d2d, 0x91646c97, 0xe6635c01
  ]
  const ROW5: seq<bv32> := [
    0x6b6b51f4, 0x1c6c6162, 0x856530d8, 0xf262004e, 0x6c0695ed, 0x1b01a57b, 0x8208f4c1, 0xf50fc457,
    0x65b0d9c6, 0x12b7e950, 0x8bbeb8ea, 0xfcb9887c, 0x62dd1ddf, 0x15da2d49, 0x8cd37cf3, 0xfbd44c65
  ]
  const ROW6: seq<bv32> := [
    0x4db26158, 0x3ab551ce, 0xa3bc0074, 0xd4bb30e2, 0x4adfa541, 0x3dd895d7, 0xa4d1c46d, 0xd3d6f4fb,
    0x4369e96a, 0x346ed9fc, 0xad678846, 0xda60b8d0, 0x44042d73, 0x33031de5, 0xaa0a4c5f, 0xdd0d7cc9
  ]
  const ROW7: seq<bv32> := [
    0x5005713c, 0x270241aa, 0xbe0b1010, 0xc90c2086, 0x5768b525, 0x206f85b3, 0xb966d409, 0xce61e49f,
    0x5edef90e, 0x29d9c998, 0xb0d09822, 0xc7d7a8b4, 0x59b33d17, 0x2eb40d81, 0xb7bd5c3b, 0xc0ba6cad
  ]
  const ROW8: seq<bv32> := [
    0xedb88320, 0x9abfb3b6, 0x03b6e20c, 0x74b1d29a, 0xead54739, 0x9dd277af, 0x04db2615, 0x73dc1683,
    0xe3630b12, 0x94643b84, 0x0d6d6a3e, 0x7a6a5aa8, 0xe40ecf0b, 0x9309ff9d, 0x0a00ae27, 0x7d079eb1
  ]
  const ROW9: seq<bv32> := [
    0xf00f9344, 0x8708a3d2, 0x1e01f268, 0x6906c2fe, 0xf762575d, 0x806567cb, 0x196c3671, 0x6e6b06e7,
    0xfed41b76, 0x89d32be0, 0x10da7a5a, 0x67dd4acc, 0xf9b9df6f, 0x8ebeeff9, 0x17b7be43, 0x60b08ed5
  ]
  const ROWA: seq<bv32> := [
    0xd6d6a3e8, 0xa1d1937e, 0x38d8c2c4, 0x4fdff252, 0xd1bb67f1, 0xa6bc5767, 0x3fb506dd, 0x48b2364b,
    0xd80d2bda, 0xaf0a1b4c, 0x36034af6, 0x41047a60, 0xdf60efc3, 0xa867df55, 0x316e8eef, 0x4669be79
  ]
  const ROWB: seq<bv32> := [
    0xcb61b38c, 0xbc66831a, 0x256fd2a0, 0x5268e236, 0xcc0c7795, 0xbb0b4703, 0x220216b9, 0x5505262f,
    0xc5ba3bbe, 0xb2bd0b28, 0x2bb45a92, 0x5cb36a04, 0xc2d7ffa7, 0xb5d0cf31, 0x2cd99e8b, 0x5bdeae1d
  ]
  const ROWC: seq<bv32> := [
    0x9b64c2b0, 0xec63f226, 0x756aa39c, 0x026d930a, 0x9c0906a9, 0xeb0e363f, 0x72076785, 0x05005713,
    0x95bf4a82, 0xe2b87a14, 0x7bb12bae, 0x0cb61b38, 0x92d28e9b, 0xe5d5be0d, 0x7cdcefb7, 0x0bdbdf21
  ]
  const ROWD: seq<bv32> := [
    0x86d3d2d4, 0xf1d4e242, 0x68ddb3f8, 0x1fda836e, 0x81be16cd, 0xf6b9265b, 0x6fb077e1, 0x18b74777,
    0x88085ae6, 0xff0f6a70, 0x66063bca, 0x11010b5c, 0x8f659eff, 0xf862ae69, 0x616bffd3, 0x166ccf45
  ]
  const ROWE: seq<bv32> := [
    0xa00ae278, 0xd70dd2ee, 0x4e048354, 0x3903b3c2, 0xa7672661, 0xd06016f7, 0x4969474d, 0x3e6e77db,
    0xaed16a4a, 0xd9d65adc, 0x40df0b66, 0x37d83bf0, 0xa9bcae53, 0xdebb9ec5, 0x47b2cf7f, 0x30b5ffe9
  ]
  const ROWF: seq<bv32> := [
    0xbdbdf21c, 0xcabac28a, 0x53b39330, 0x24b4a3a6, 0xbad03605, 0xcdd70693, 0x54de5729, 0x23d967bf,
    0xb3667a2e, 0xc4614ab8, 0x5d681b02, 0x2a6f2b94, 0xb40bbe37, 0xc30c8ea1, 0x5a05df1b, 0x2d02ef8d
  ]

  function Row(r: nat): (row: seq<bv32>)
    requires r < 16
    ensures |row| == 16
  {
    match r
    case 0 => ROW0 case 1 => ROW1 case 2 => ROW2 case 3 => ROW3
    case 4 => ROW4 case 5 => ROW5 case 6 => ROW6 case 7 => ROW7
    case 8 => ROW8 case 9 => ROW9 case 10 => ROWA case 11 => ROWB
    case 12 => ROWC case 13 => ROWD case 14 => ROWE case 15 => ROWF
  }

  function Table(i: nat): bv32
    requires i < 0x100
  {
    Row(i / 16)[i % 16]
  }

  /** Each row is the first one, shifted by its own first entry. */
  ghost predicate RowIsXor(row: seq<bv32>)
  {
    |row| == 16 && forall j | 0 <= j < 16 :: row[j] == Xor(row[0], ROW0[j])
  }

  lemma Row0IsXor() ensures RowIsXor(ROW0) {}
  lemma Row1IsXor() ensures RowIsXor(ROW1) {}
  lemma Row2IsXor() ensures RowIsXor(ROW2) {}
  lemma Row3IsXor() ensures RowIsXor(ROW3) {}
  lemma Row4IsXor() ensures RowIsXor(ROW4) {}
  lemma Row5IsXor() ensures RowIsXor(ROW5) {}
  lemma Row6IsXor() ensures RowIsXor(ROW6) {}
  lemma Row7IsXor() ensures RowIsXor(ROW7) {}
  lemma Row8IsXor() ensures RowIsXor(ROW8) {}
  lemma Row9IsXor() ensures RowIsXor(ROW9) {}
  lemma RowAIsXor() ensures RowIsXor(ROWA) {}
  lemma RowBIsXor() ensures RowIsXor(ROWB) {}
  lemma RowCIsXor() ensures RowIsXor(ROWC) {}
  lemma RowDIsXor() ensures RowIsXor(ROWD) {}
  lemma RowEIsXor() ensures RowIsXor(ROWE) {}
  lemma RowFIsXor() ensures RowIsXor(ROWF) {}

  lemma RowsAreXors(r: nat)
    requires r < 16
    ensures RowIsXor(Row(r))
  {
    hide RowIsXor;
    Row0IsXor(); Row1IsXor(); Row2IsXor(); Row3IsXor();
    Row4IsXor(); Row5IsXor(); Row6IsXor(); Row7IsXor();
    Row8IsXor(); Row9IsXor(); RowAIsXor(); RowBIsXor();
    RowCIsXor(); RowDIsXor(); RowEIsXor(); RowFIsXor();
  }

  lemma FirstRow(x: bv32)
    requires x <= 0xF
    ensures 0 <= Index(x) < 16 && ROW0[Index(x)] == Shift8(x)
  {
  }

  lemma FirstColumn(x: bv32)
    requires x <= 0xF
    ensures 0 <= Index(x) < 16 && Row(Index(x))[0] == Shift8(Up4(x))
  {
  }

  function Up4(x: bv32): bv32 { x << 4 }

  function Nibble(x: bv32): bv32 { x & 0xF }

  function Down4(x: bv32): bv32 { x >> 4 }

  function Index(x: bv32): int { x as int }

  lemma Nibbles(x: bv32)
    requires x <= 0xFF
    ensures 0 <= Index(x) < 0x100
    ensures Index(x) / 16 == Index(Down4(x)) && Index(x) % 16 == Index(Nibble(x))
    ensures Down4(x) <= 0xF && Nibble(x) <= 0xF && Xor(Up4(Down4(x)), Nibble(x)) == x
  {
  }

  /** Every entry is what eight steps of the register make of its index. */
  lemma TableIsShift8(x: bv32)
    requires x <= 0xFF
    ensures 0 <= Index(x) < 0x100 && Table(Index(x)) == Shift8(x)
  {
    hide Shift8, Row, Xor, Up4, Down4, Nibble, Index;
    Nibbles(x);
    FirstColumn(Down4(x));
    FirstRow(Nibble(x));
    RowsAreXors(Index(Down4(x)));
    Shift8Xor(Up4(Down4(x)), Nibble(x));
  }

  // ----- messages -----

  function Wide(b: bv8): bv32 { b as bv32 }

  /** The register after one more byte. */
  function Update(c: bv32, b: bv8): bv32
  {
    Shift8(Xor(c, Wide(b)))
  }

  /** The register after a message. */
  function Register(c: bv32, message: seq<bv8>): bv32
    decreases |message|
  {
    if message == [] then c else Register(Update(c, message[0]), message[1..])
  }

  function Not(c: bv32): bv32 { !c }

  /** The checksum: the register is inverted before and after. */
  function Crc(seed: bv32, message: seq<bv8>): bv32
  {
    Not(Register(Not(seed), message))
  }

  lemma TableIndex(c: bv32, b: bv8)
    ensures LowByte(Xor(c, Wide(b))) <= 0xFF && Down8(Xor(c, Wide(b))) == Down8(c)
  {
  }

  /** The loop over the table computes the checksum. */
  method StdCrc32(seed: bv32, buffer: seq<bv8>) returns (crc: bv32)
    ensures crc == Crc(seed, buffer)
  {
    hide Shift8, Xor, LowByte, Down8, Table, Index, Wide, Not;
    crc := Not(seed);
    var p := 0;
    assert buffer[0..] == buffer;
    while p < |buffer|
      invariant 0 <= p <= |buffer|
      invariant Register(crc, buffer[p..]) == Register(Not(seed), buffer)
    {
      var x := Xor(crc, Wide(buffer[p]));
      TableIndex(crc, buffer[p]);
      TableIsShift8(LowByte(x));
      Shift8Parts(x);
      assert buffer[p..][1..] == buffer[p + 1..];
      crc := Xor(Table(Index(LowByte(x))), Down8(crc));
      p := p + 1;
    }
    crc := Not(crc);
  }

  lemma {:induction false} RegisterConcat(c: bv32, a: seq<bv8>, b: seq<bv8>)
    ensures Register(c, a + b) == Register(Register(c, a), b)
    decreases |a|
  {
    hide Update;
    if a == [] {
      assert a + b == b;
    } else {
      assert (a + b)[1..] == a[1..] + b;
      RegisterConcat(Update(c, a[0]), a[1..], b);
    }
  }

  lemma NotNot(c: bv32)
    ensures Not(Not(c)) == c
  {
  }

  /** The checksum of a long message can be computed piece by piece. */
  lemma CrcConcat(seed: bv32, a: seq<bv8>, b: seq<bv8>)
    ensures Crc(Crc(seed, a), b) == Crc(seed, a + b)
  {
    hide Not, Register;
    NotNot(Register(Not(seed), a));
    RegisterConcat(Not(seed), a, b);
  }

  // ----- detection -----

  lemma Shift1Injective(a: bv32, b: bv32)
    requires Shift1(a) == Shift1(b)
    ensures a == b
  {
  }

  lemma Shift4Injective(a: bv32, b: bv32)
    requires Shift4(a) == Shift4(b)
    ensures a == b
  {
    hide Shift1;
    Shift1Injective(Shift1(Shift2(a)), Shift1(Shift2(b)));
    Shift1Injective(Shift2(a), Shift2(b));
    Shift1Injective(Shift1(a), Shift1(b));
    Shift1Injective(a, b);
  }

  lemma Shift8Injective(a: bv32, b: bv32)
    requires Shift8(a) == Shift8(b)
    ensures a == b
  {
    hide Shift4;
    Shift4Injective(Shift4(a), Shift4(b));
    Shift4Injective(a, b);
  }

  lemma XorInjective(a: bv32, b: bv32, p: bv32)
    requires Xor(a, p) == Xor(b, p) || Xor(p, a) == Xor(p, b)
    ensures a == b
  {
    hide Xor;
    XorCommutes(p, a);
    XorCommutes(p, b);
    XorAssociates(a, p, p);
    XorAssociates(b, p, p);
    XorZero(p);
    XorZero(a);
    XorZero(b);
  }

  lemma {:induction false} RegisterInjective(c: bv32, d: bv32, message: seq<bv8>)
    requires Register(c, message) == Register(d, message)
    ensures c == d
    decreases |message|
  {
    hide Shift8, Xor, Wide;
    if message != [] {
      RegisterInjective(Update(c, message[0]), Update(d, message[0]), message[1..]);
      Shift8Injective(Xor(c, Wide(message[0])), Xor(d, Wide(message[0])));
      XorInjective(c, d, Wide(message[0]));
    }
  }

  function Up8(c: bv32): bv32 { c << 8 }

  predicate Below24(c: bv32) { c <= 0xFF_FFFF }

  /** Up to four bytes as a little-endian word. */
  function LittleEndian(x: seq<bv8>): bv32
    requires |x| <= 4
    decreases |x|
  {
    if x == [] then 0 else Xor(Wide(x[0]), Up8(LittleEndian(x[1..])))
  }

  /** n bytes' worth of steps. */
  function Steps(c: bv32, n: nat): bv32
    decreases n
  {
    if n == 0 then c else Steps(Shift8(c), n - 1)
  }

  lemma Up8Undone(v: bv32)
    requires Below24(v)
    ensures Shift8(Up8(v)) == v && Down8(Up8(v)) == v
  {
  }

  lemma WordGrows(b: bv8, v: bv32)
    ensures v == 0 ==> Xor(Wide(b), Up8(v)) <= 0xFF
    ensures v <= 0xFF ==> Xor(Wide(b), Up8(v)) <= 0xFFFF
    ensures v <= 0xFFFF ==> Xor(Wide(b), Up8(v)) <= 0xFF_FFFF
  {
  }

  lemma {:induction false} SmallWord(x: seq<bv8>)
    requires |x| <= 3
    ensures Below24(LittleEndian(x))
    ensures |x| <= 2 ==> LittleEndian(x) <= 0xFFFF
    ensures |x| <= 1 ==> LittleEndian(x) <= 0xFF
    decreases |x|
  {
    hide Xor, Wide, Up8;
    if x != [] {
      SmallWord(x[1..]);
      WordGrows(x[0], LittleEndian(x[1..]));
      if |x| == 1 {
        assert LittleEndian(x[1..]) == 0;
      }
    }
  }

  /** A word can be added before the bytes it consists of are read. */
  lemma {:induction false} RegisterOfWord(c: bv32, x: seq<bv8>)
    requires |x| <= 4
    ensures Register(c, x) == Steps(Xor(c, LittleEndian(x)), |x|)
    decreases |x|
  {
    hide Xor, Shift8, Wide, Up8, Below24;
    if x == [] {
      XorZero(c);
    } else {
      var rest := LittleEndian(x[1..]);
      RegisterOfWord(Update(c, x[0]), x[1..]);
      SmallWord(x[1..]);
      Up8Undone(rest);
      Shift8Xor(Xor(c, Wide(x[0])), Up8(rest));
      XorLaws(c, Wide(x[0]), Up8(rest));
    }
  }

  lemma {:induction false} StepsInjective(a: bv32, b: bv32, n: nat)
    requires Steps(a, n) == Steps(b, n)
    ensures a == b
    decreases n
  {
    hide Shift8;
    if n > 0 {
      StepsInjective(Shift8(a), Shift8(b), n - 1);
      Shift8Injective(a, b);
    }
  }

  lemma TakeApart(a: bv8, u: bv32)
    requires Below24(u)
    ensures LowByte(Xor(Wide(a), Up8(u))) == Wide(a)
    ensures Down8(Xor(Wide(a), Up8(u))) == u
  {
  }

  lemma WideInjective(a: bv8, b: bv8)
    requires Wide(a) == Wide(b)
    ensures a == b
  {
  }

  lemma FirstByte(a: bv8, u: bv32, b: bv8, v: bv32)
    requires Xor(Wide(a), Up8(u)) == Xor(Wide(b), Up8(v)) && Below24(u) && Below24(v)
    ensures a == b && u == v
  {
    hide Xor, Wide, Up8, LowByte, Down8, Below24;
    TakeApart(a, u);
    TakeApart(b, v);
    WideInjective(a, b);
  }

  lemma {:induction false} LittleEndianInjective(x: seq<bv8>, y: seq<bv8>)
    requires |x| == |y| <= 4 && LittleEndian(x) == LittleEndian(y)
    ensures x == y
    decreases |x|
  {
    hide Xor, Wide, Up8, Below24;
    if x != [] {
      SmallWord(x[1..]);
      SmallWord(y[1..]);
      FirstByte(x[0], LittleEndian(x[1..]), y[0], LittleEndian(y[1..]));
      LittleEndianInjective(x[1..], y[1..]);
      assert x == [x[0]] + x[1..] && y == [y[0]] + y[1..];
    }
  }

  /** Two messages that differ only within four consecutive bytes never share a checksum. */
  lemma BurstDetected(seed: bv32, before: seq<bv8>, x: seq<bv8>, y: seq<bv8>, after: seq<bv8>)
    requires |x| == |y| <= 4 && x != y
    ensures Crc(seed, before + x + after) != Crc(seed, before + y + after)
  {
    hide Register, Not, Xor, Steps, LittleEndian;
    var c := Register(Not(seed), before);
    RegisterConcat(Not(seed), before + x, after);
    RegisterConcat(Not(seed), before, x);
    RegisterConcat(Not(seed), before + y, after);
    RegisterConcat(Not(seed), before, y);
    RegisterOfWord(c, x);
    RegisterOfWord(c, y);
    if Crc(seed, before + x + after) == Crc(seed, before + y + after) {
      NotNot(Register(Not(seed), before + x + after));
      NotNot(Register(Not(seed), before + y + after));
      RegisterInjective(Register(c, x), Register(c, y), after);
      StepsInjective(Xor(c, LittleEndian(x)), Xor(c, LittleEndian(y)), |x|);
      XorInjective(LittleEndian(x), LittleEndian(y), c);
      LittleEndianInjective(x, y);
    }
  }

  // ----- the stored checksum -----

  function FirstStored(w: bv32): bv8 { (w & 0xFF) as bv8 }

  /** The bytes in which a checksum is stored behind its block. */
  function StoredBytes(w: bv32): (x: seq<bv8>)
    ensures |x| == 4
  {
    var w1 := Down8(w);
    var w2 := Down8(w1);
    [FirstStored(w), FirstStored(w1), FirstStored(w2), FirstStored(Down8(w2))]
  }

  lemma StoredByte(w: bv32)
    ensures Xor(Wide(FirstStored(w)), Up8(Down8(w))) == w
    ensures Down8(Down8(Down8(Down8(w)))) == 0
  {
  }

  lemma StoredBytesAre(w: bv32)
    ensures LittleEndian(StoredBytes(w)) == w
  {
    hide Xor, Wide, Up8, Down8, FirstStored;
    var x := StoredBytes(w);
    assert x[1..][1..][1..][1..] == [];
    StoredByte(w);
    StoredByte(Down8(w));
    StoredByte(Down8(Down8(w)));
    StoredByte(Down8(Down8(Down8(w))));
    assert LittleEndian(x[1..][1..][1..]) == Down8(Down8(Down8(w)));
    assert LittleEndian(x[1..][1..]) == Down8(Down8(w));
  }

  lemma RegisterStep(c: bv32, b: bv8, rest: seq<bv8>)
    ensures Register(c, [b] + rest) == Register(Update(c, b), rest)
  {
    hide Update;
    assert ([b] + rest)[1..] == rest;
  }

  /** The check value of this CRC, that of the digits from 1 to 9. */
  lemma CheckValue()
    ensures Crc(0, [0x31, 0x32, 0x33, 0x34, 0x35, 0x36, 0x37, 0x38, 0x39]) == 0xCBF4_3926
  {
    hide Update, Register, Not;
    DigitsChecked();
    RegisterEnds(0x340BC6D9);
    Inverted();
    var none: seq<bv8> := [];
    var from9 := [0x39] + none;
    var from8 := [0x38] + from9;
    var from7 := [0x37] + from8;
    var from6 := [0x36] + from7;
    var from5 := [0x35] + from6;
    var from4 := [0x34] + from5;
    var from3 := [0x33] + from4;
    var from2 := [0x32] + from3;
    var from1 := [0x31] + from2;
    RegisterStep(0xFFFF_FFFF, 0x31, from2);
    RegisterStep(0x7C23_1048, 0x32, from3);
    RegisterStep(0xB0AC_BB32, 0x33, from4);
    RegisterStep(0x77B7_9C2D, 0x34, from5);
    RegisterStep(0x641C_1F5C, 0x35, from6);
    RegisterStep(0x340A_C5E3, 0x36, from7);
    RegisterStep(0xF68D_2C9E, 0x37, from8);
    RegisterStep(0xAFFC_9660, 0x38, from9);
    RegisterStep(0x651F_2550, 0x39, none);
    assert from1 == [0x31, 0x32, 0x33, 0x34, 0x35, 0x36, 0x37, 0x38, 0x39];
  }

  lemma RegisterEnds(c: bv32)
    ensures Register(c, []) == c
  {
  }

  lemma Inverted()
    ensures Not(0) == 0xFFFF_FFFF && Not(0x340B_C6D9) == 0xCBF4_3926
  {
  }

  lemma DigitsChecked()
    ensures Update(0xFFFFFFFF, 0x31) == 0x7C231048
    ensures Update(0x7C231048, 0x32) == 0xB0ACBB32
    ensures Update(0xB0ACBB32, 0x33) == 0x77B79C2D
    ensures Update(0x77B79C2D, 0x34) == 0x641C1F5C
    ensures Update(0x641C1F5C, 0x35) == 0x340AC5E3
    ensures Update(0x340AC5E3, 0x36) == 0xF68D2C9E
    ensures Update(0xF68D2C9E, 0x37) == 0xAFFC9660
    ensures Update(0xAFFC9660, 0x38) == 0x651F2550
    ensures Update(0x651F2550, 0x39) == 0x340BC6D9
  {
  }

  const RESIDUE: bv32 := 0x2144DF1C

  lemma XorNot(c: bv32)
    ensures Xor(c, Not(c)) == 0xFFFF_FFFF
  {
  }

  lemma AllOnes(c: bv32)
    ensures Xor(c, Not(c)) == 0xFFFF_FFFF
    ensures Not(Steps(0xFFFF_FFFF, 4)) == RESIDUE
  {
    XorNot(c);
  }

  /** Whatever a block and the seed, the block with its stored checksum behind it has one fixed checksum. */
  lemma StoredChecksumResidue(seed: bv32, block: seq<bv8>)
    ensures Crc(seed, block + StoredBytes(Crc(seed, block))) == RESIDUE
  {
    hide Register, Not, Xor, Steps, LittleEndian, StoredBytes;
    var c := Register(Not(seed), block);
    RegisterConcat(Not(seed), block, StoredBytes(Not(c)));
    RegisterOfWord(c, StoredBytes(Not(c)));
    StoredBytesAre(Not(c));
    AllOnes(c);
  }
}
