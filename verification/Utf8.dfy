/** The table-driven UTF-8 decoder, against the grammar of section 4 of RFC 3629. */
module Utf8 {
  import opened Bytes

  const ACCEPT := 0
  const REJECT := 1

  // ----- the decoder -----

  /** The first half of the table, in runs of equal entries: the type of each byte. */
  function TypeOf(b: byte): (t: nat)
    ensures t < 12
  {
    if b <= 0x7F then 0
    else if b <= 0x8F then 1
    else if b <= 0x9F then 9
    else if b <= 0xBF then 7
    else if b <= 0xC1 then 8
    else if b <= 0xDF then 2
    else if b == 0xE0 then 10
    else if b <= 0xEC then 3
    else if b == 0xED then 4
    else if b <= 0xEF then 3
    else if b == 0xF0 then 11
    else if b <= 0xF3 then 6
    else if b == 0xF4 then 5
    else 8
  }

  /** The row of the start state. */
  function FirstRow(t: nat): (r: nat)
    ensures r <= 8
  {
    match t
    case 0 => 0
    case 2 => 2
    case 3 => 3
    case 4 => 5
    case 5 => 8
    case 6 => 7
    case 10 => 4
    case 11 => 6
    case _ => 1
  }

  /** The second half of the table: the next state. */
  function After(state: nat, b: byte): (r: nat)
    ensures r <= 8
  {
    var t := TypeOf(b);
    match state
    case 0 => FirstRow(t)
    case 2 => if t == 1 || t == 7 || t == 9 then 0 else 1
    case 3 => if t == 1 || t == 7 || t == 9 then 2 else 1
    case 4 => if t == 7 then 2 else 1
    case 5 => if t == 1 || t == 9 then 2 else 1
    case 6 => if t == 7 || t == 9 then 3 else 1
    case 7 => if t == 1 || t == 7 || t == 9 then 3 else 1
    case 8 => if t == 1 then 3 else 1
    case _ => 1
  }

  datatype Decoder = Decoder(state: nat, codepoint: nat)

  /** (0xff >> type) & b. */
  function FirstBits(t: nat, b: byte): nat
  {
    match t
    case 0 => b
    case 1 => b % 0x80
    case 2 => b % 0x40
    case 3 => b % 0x20
    case 4 => b % 0x10
    case 5 => b % 8
    case 6 => b % 4
    case 7 => b % 2
    case _ => 0
  }

  /** One step of decode. */
  function Decode(d: Decoder, b: byte): (r: Decoder)
    requires d.state <= 8
    ensures r.state <= 8
  {
    Decoder(After(d.state, b),
            if d.state != ACCEPT then d.codepoint * 0x40 % U32 + b % 0x40 else FirstBits(TypeOf(b), b))
  }

  /** The decoder behind a whole string. */
  function Run(d: Decoder, s: seq<byte>): (r: Decoder)
    requires d.state <= 8
    ensures r.state <= 8
    decreases |s|
  {
    if s == [] then d else Run(Decode(d, s[0]), s[1..])
  }

  method IsUtf8LenState(s: seq<byte>, state: nat) returns (end: nat)
    requires state <= 8
    ensures end == StateAfter(state, s)
  {
    hide Decode;
    var d := Decoder(state, 0);
    var i := 0;
    assert s[0..] == s;
    while i < |s|
      invariant 0 <= i <= |s| && d.state <= 8
      invariant Run(d, s[i..]) == Run(Decoder(state, 0), s)
    {
      assert s[i..][1..] == s[i + 1..];
      d := Decode(d, s[i]);
      i := i + 1;
    }
    end := d.state;
  }

  method IsUtf8Len(s: seq<byte>) returns (valid: bool)
    ensures valid <==> exists chars: seq<seq<byte>> :: Characters(chars) && Concat(chars) == s
  {
    var end := IsUtf8LenState(s, ACCEPT);
    ValidExactly(s);
    valid := end == ACCEPT;
  }

  /** The state behind a string; it does not depend on the code point. */
  function StateAfter(state: nat, s: seq<byte>): (r: nat)
    requires state <= 8
    ensures r <= 8
  {
    Run(Decoder(state, 0), s).state
  }

  lemma {:induction false} CodepointIrrelevant(state: nat, c1: nat, c2: nat, s: seq<byte>)
    requires state <= 8
    ensures Run(Decoder(state, c1), s).state == Run(Decoder(state, c2), s).state
    decreases |s|
  {
    hide After, TypeOf, FirstBits;
    if s != [] {
      var d1, d2 := Decode(Decoder(state, c1), s[0]), Decode(Decoder(state, c2), s[0]);
      CodepointIrrelevant(d1.state, d1.codepoint, d2.codepoint, s[1..]);
    }
  }

  // ----- the grammar -----

  predicate Tail(b: byte)
  {
    0x80 <= b <= 0xBF
  }

  /** What may follow a first byte of a character of several bytes: the range of the second byte. */
  predicate Second(b0: byte, b1: byte)
  {
    if b0 == 0xE0 then 0xA0 <= b1 <= 0xBF
    else if b0 == 0xED then 0x80 <= b1 <= 0x9F
    else if b0 == 0xF0 then 0x90 <= b1 <= 0xBF
    else if b0 == 0xF4 then 0x80 <= b1 <= 0x8F
    else Tail(b1)
  }

  /** UTF8-char: UTF8-1, UTF8-2, UTF8-3 and UTF8-4. */
  predicate Character(c: seq<byte>)
  {
    || (|c| == 1 && c[0] <= 0x7F)
    || (|c| == 2 && 0xC2 <= c[0] <= 0xDF && Tail(c[1]))
    || (|c| == 3 && 0xE0 <= c[0] <= 0xEF && Second(c[0], c[1]) && Tail(c[2]))
    || (|c| == 4 && 0xF0 <= c[0] <= 0xF4 && Second(c[0], c[1]) && Tail(c[2]) && Tail(c[3]))
  }

  predicate Characters(chars: seq<seq<byte>>)
  {
    forall i | 0 <= i < |chars| :: Character(chars[i])
  }

  /** How many bytes belong to a character with this first byte. */
  function SizeOf(b0: byte): nat
  {
    if b0 <= 0x7F then 1 else if b0 <= 0xDF then 2 else if b0 <= 0xEF then 3 else 4
  }

  /** A string of characters, read from the front. */
  predicate Octets(s: seq<byte>)
    decreases |s|
  {
    s == [] || (SizeOf(s[0]) <= |s| && Character(s[..SizeOf(s[0])]) && Octets(s[SizeOf(s[0])..]))
  }

  lemma {:induction false} OctetsOf(chars: seq<seq<byte>>)
    requires Characters(chars)
    ensures Octets(Concat(chars))
    decreases |chars|
  {
    hide Second, Tail;
    if chars != [] {
      OctetsOf(chars[1..]);
      var s := Concat(chars);
      assert Character(chars[0]);
      assert s[..|chars[0]|] == chars[0] && s[|chars[0]|..] == Concat(chars[1..]);
    }
  }

  lemma {:induction false} CharactersOf(s: seq<byte>) returns (chars: seq<seq<byte>>)
    requires Octets(s)
    ensures Characters(chars) && Concat(chars) == s
    decreases |s|
  {
    hide Character;
    chars := [];
    if s != [] {
      var n := SizeOf(s[0]);
      var rest := CharactersOf(s[n..]);
      chars := [s[..n]] + rest;
      assert s == s[..n] + s[n..];
    }
  }

  // ----- the decoder accepts the grammar -----

  /** What has to follow in a state: the end of a character, and then characters. */
  predicate Continues(state: nat, s: seq<byte>)
  {
    match state
    case 0 => Octets(s)
    case 2 => |s| >= 1 && Tail(s[0]) && Octets(s[1..])
    case 3 => |s| >= 2 && Tail(s[0]) && Tail(s[1]) && Octets(s[2..])
    case 4 => |s| >= 2 && Second(0xE0, s[0]) && Tail(s[1]) && Octets(s[2..])
    case 5 => |s| >= 2 && Second(0xED, s[0]) && Tail(s[1]) && Octets(s[2..])
    case 6 => |s| >= 3 && Second(0xF0, s[0]) && Tail(s[1]) && Tail(s[2]) && Octets(s[3..])
    case 7 => |s| >= 3 && Tail(s[0]) && Tail(s[1]) && Tail(s[2]) && Octets(s[3..])
    case 8 => |s| >= 3 && Second(0xF4, s[0]) && Tail(s[1]) && Tail(s[2]) && Octets(s[3..])
    case _ => false
  }

  /** The first byte of a character. */
  lemma FirstByte(b: byte)
    ensures After(0, b) == if b <= 0x7F then 0 else if b < 0xC2 || b > 0xF4 then 1 else if b <= 0xDF then 2
            else if b == 0xE0 then 4 else if b == 0xED then 5 else if b <= 0xEF then 3
            else if b == 0xF0 then 6 else if b == 0xF4 then 8 else 7
  {
  }

  /** The bytes inside a character. */
  lemma InnerByte(b: byte)
    ensures After(1, b) == 1
    ensures After(2, b) == if Tail(b) then 0 else 1
    ensures After(3, b) == if Tail(b) then 2 else 1
    ensures After(4, b) == if Second(0xE0, b) then 2 else 1
    ensures After(5, b) == if Second(0xED, b) then 2 else 1
    ensures After(6, b) == if Second(0xF0, b) then 3 else 1
    ensures After(7, b) == if Tail(b) then 3 else 1
    ensures After(8, b) == if Second(0xF4, b) then 3 else 1
  {
  }

  /** What a character looks like behind its first byte, by the state that byte leads to. */
  lemma CharacterBehind(c: seq<byte>, state: nat)
    requires c != [] && |c| == SizeOf(c[0]) && state == After(0, c[0])
    ensures Character(c) <==> match state
              case 0 => true
              case 2 => Tail(c[1])
              case 3 => |c| == 3 && Tail(c[1]) && Tail(c[2])
              case 4 => Second(0xE0, c[1]) && Tail(c[2])
              case 5 => Second(0xED, c[1]) && Tail(c[2])
              case 6 => Second(0xF0, c[1]) && Tail(c[2]) && Tail(c[3])
              case 7 => Tail(c[1]) && Tail(c[2]) && Tail(c[3])
              case 8 => Second(0xF4, c[1]) && Tail(c[2]) && Tail(c[3])
              case _ => false
  {
    hide Tail;
  }

  lemma OctetsFirst(s: seq<byte>)
    requires s != []
    ensures Octets(s) <==> Continues(After(0, s[0]), s[1..])
  {
    OctetsFront(s);
    FirstByte(s[0]);
    hide After, Tail, Second, Octets, Character;
    var n, t := SizeOf(s[0]), s[1..];
    if n <= |s| {
      var c := s[..n];
      assert t[n - 1..] == s[n..];
      assert n >= 2 ==> t[0] == c[1];
      assert n >= 3 ==> t[1] == c[2];
      assert n >= 4 ==> t[2] == c[3];
      CharacterBehind(c, After(0, s[0]));
    }
  }

  lemma OctetsFront(s: seq<byte>)
    requires s != []
    ensures Octets(s) <==> SizeOf(s[0]) <= |s| && Character(s[..SizeOf(s[0])]) && Octets(s[SizeOf(s[0])..])
  {
  }

  lemma ContinuesStep(state: nat, s: seq<byte>)
    requires state <= 8 && s != []
    ensures Continues(state, s) <==> Continues(After(state, s[0]), s[1..])
  {
    hide After, Second, Tail, Octets;
    InnerByte(s[0]);
    var t := s[1..];
    assert |t| >= 1 ==> t[0] == s[1] && t[1..] == s[2..];
    assert |t| >= 2 ==> t[1] == s[2] && t[2..] == s[3..];
    if state == 0 {
      OctetsFirst(s);
    }
  }

  /** In any state the decoder accepts exactly what may follow there. */
  lemma {:induction false} AcceptsExactly(state: nat, s: seq<byte>)
    requires state <= 8
    ensures StateAfter(state, s) == ACCEPT <==> Continues(state, s)
    decreases |s|
  {
    hide After, Continues, FirstBits;
    if s == [] {
      NothingLeft(state);
    } else {
      ContinuesStep(state, s);
      AcceptsExactly(After(state, s[0]), s[1..]);
      var d := Decode(Decoder(state, 0), s[0]);
      CodepointIrrelevant(d.state, d.codepoint, 0, s[1..]);
    }
  }

  lemma NothingLeft(state: nat)
    ensures Continues(state, []) <==> state == ACCEPT
  {
  }

  /** A string is accepted exactly when it is a concatenation of well-formed characters. */
  lemma ValidExactly(s: seq<byte>)
    ensures StateAfter(ACCEPT, s) == ACCEPT <==> exists chars: seq<seq<byte>> :: Characters(chars) && Concat(chars) == s
  {
    hide StateAfter, Octets, Characters, Concat;
    AcceptsExactly(ACCEPT, s);
    if Octets(s) {
      var chars := CharactersOf(s);
    }
    if chars: seq<seq<byte>> :| Characters(chars) && Concat(chars) == s {
      OctetsOf(chars);
    }
  }

  lemma {:induction false} RunConcat(d: Decoder, a: seq<byte>, b: seq<byte>)
    requires d.state <= 8
    ensures Run(d, a + b) == Run(Run(d, a), b)
    decreases |a|
  {
    hide Decode;
    if a == [] {
      assert a + b == b;
    } else {
      assert (a + b)[1..] == a[1..] + b;
      RunConcat(Decode(d, a[0]), a[1..], b);
    }
  }

  /** Validating a message in fragments, handing the state on, is validating it whole. */
  lemma FragmentsCompose(state: nat, a: seq<byte>, b: seq<byte>)
    requires state <= 8
    ensures StateAfter(state, a + b) == StateAfter(StateAfter(state, a), b)
  {
    RunConcat(Decoder(state, 0), a, b);
    var d := Run(Decoder(state, 0), a);
    CodepointIrrelevant(d.state, d.codepoint, 0, b);
  }

  /** Once rejected, rejected for good. */
  lemma {:induction false} RejectAbsorbs(s: seq<byte>)
    ensures StateAfter(REJECT, s) == REJECT
    decreases |s|
  {
    if s != [] {
      hide After, TypeOf, FirstBits;
      InnerByte(s[0]);
      var d := Decode(Decoder(REJECT, 0), s[0]);
      RejectAbsorbs(s[1..]);
      CodepointIrrelevant(d.state, d.codepoint, 0, s[1..]);
    }
  }

  /** Bytes that complete the character a state is in. */
  function Completion(state: nat): seq<byte>
  {
    match state
    case 0 => []
    case 2 => [0x80]
    case 3 => [0x80, 0x80]
    case 4 => [0xA0, 0x80]
    case 5 => [0x80, 0x80]
    case 6 => [0x90, 0x80, 0x80]
    case _ => [0x80, 0x80, 0x80]
  }

  lemma Completes(state: nat)
    requires state <= 8 && state != REJECT
    ensures Continues(state, Completion(state))
  {
    var s := Completion(state);
    assert |s| >= 1 ==> s[1..] == if |s| == 1 then [] else s[1..];
  }

  /** A fragment is dropped exactly when nothing that could follow would make the message valid. */
  lemma RejectedExactly(s: seq<byte>)
    ensures StateAfter(ACCEPT, s) == REJECT <==> forall t: seq<byte> :: StateAfter(ACCEPT, s + t) != ACCEPT
  {
    hide StateAfter, Continues, Completion;
    var state := StateAfter(ACCEPT, s);
    if state == REJECT {
      forall t: seq<byte>
        ensures StateAfter(ACCEPT, s + t) != ACCEPT
      {
        FragmentsCompose(ACCEPT, s, t);
        RejectAbsorbs(t);
      }
    } else {
      FragmentsCompose(ACCEPT, s, Completion(state));
      Completes(state);
      AcceptsExactly(state, Completion(state));
    }
  }

  // ----- the code point -----

  predicate ScalarValue(v: nat)
  {
    v < 0xD800 || 0xE000 <= v < 0x11_0000
  }

  /** The encoding of section 3 of RFC 3629. */
  function Encode(v: nat): seq<byte>
    requires ScalarValue(v)
  {
    if v < 0x80 then [v]
    else if v < 0x800 then [0xC0 + v / 0x40, 0x80 + v % 0x40]
    else if v < 0x1_0000 then [0xE0 + v / 0x1000, 0x80 + v / 0x40 % 0x40, 0x80 + v % 0x40]
    else [0xF0 + v / 0x4_0000, 0x80 + v / 0x1000 % 0x40, 0x80 + v / 0x40 % 0x40, 0x80 + v % 0x40]
  }

  function Six(high: nat, b: byte): nat
    requires Tail(b)
  {
    high * 0x40 + (b - 0x80)
  }

  /** The number a character stands for. */
  function Scalar(c: seq<byte>): nat
    requires Character(c)
  {
    if |c| == 1 then c[0]
    else if |c| == 2 then Six(c[0] - 0xC0, c[1])
    else if |c| == 3 then Six(Six(c[0] - 0xE0, c[1]), c[2])
    else Six(Six(Six(c[0] - 0xF0, c[1]), c[2]), c[3])
  }

  lemma SixDigits(high: nat, b: byte)
    requires Tail(b)
    ensures Six(high, b) / 0x40 == high && Six(high, b) % 0x40 == b - 0x80
  {
  }

  lemma Shifts(v: nat)
    ensures v / 0x1000 == v / 0x40 / 0x40 && v / 0x4_0000 == v / 0x40 / 0x40 / 0x40
  {
  }

  /** The characters are the encodings of the scalar values, one each. */
  lemma EncodingExact(v: nat)
    requires ScalarValue(v)
    ensures Character(Encode(v)) && Scalar(Encode(v)) == v
  {
    Shifts(v);
  }

  lemma ScalarOfTwo(c: seq<byte>)
    requires Character(c) && |c| == 2
    ensures ScalarValue(Scalar(c)) && Encode(Scalar(c)) == c
  {
    SixDigits(c[0] - 0xC0, c[1]);
  }

  /** The first two bytes of three or four leave no number that is too small, too large or a surrogate. */
  lemma SecondSix(b0: byte, b1: byte)
    requires 0xE0 <= b0 <= 0xF4 && Second(b0, b1)
    ensures Tail(b1)
    ensures b0 <= 0xEF ==> 0x20 <= Six(b0 - 0xE0, b1) <= 0x3FF && !(0x360 <= Six(b0 - 0xE0, b1) <= 0x37F)
    ensures b0 >= 0xF0 ==> 0x10 <= Six(b0 - 0xF0, b1) <= 0x10F
  {
  }

  lemma ScalarOfThree(c: seq<byte>)
    requires Character(c) && |c| == 3
    ensures ScalarValue(Scalar(c)) && Encode(Scalar(c)) == c
  {
    SecondSix(c[0], c[1]);
    hide Second;
    var v1 := Six(c[0] - 0xE0, c[1]);
    SixDigits(c[0] - 0xE0, c[1]);
    SixDigits(v1, c[2]);
    hide Six;
    var v := Scalar(c);
    Shifts(v);
    assert v / 0x40 == v1 && 0x800 <= v < 0x1_0000;
    assert Encode(v) == [0xE0 + v1 / 0x40, 0x80 + v1 % 0x40, 0x80 + v % 0x40];
  }

  lemma ScalarOfFour(c: seq<byte>)
    requires Character(c) && |c| == 4
    ensures ScalarValue(Scalar(c)) && Encode(Scalar(c)) == c
  {
    SecondSix(c[0], c[1]);
    hide Second;
    var v1 := Six(c[0] - 0xF0, c[1]);
    var v2 := Six(v1, c[2]);
    SixDigits(c[0] - 0xF0, c[1]);
    SixDigits(v1, c[2]);
    SixDigits(v2, c[3]);
    hide Six;
    var v := Scalar(c);
    Shifts(v);
    assert v / 0x40 == v2 && v2 / 0x40 == v1 && 0x1_0000 <= v < 0x11_0000;
    assert Encode(v) == [0xF0 + v1 / 0x40, 0x80 + v1 % 0x40, 0x80 + v2 % 0x40, 0x80 + v % 0x40];
  }

  lemma ScalarExact(c: seq<byte>)
    requires Character(c)
    ensures ScalarValue(Scalar(c)) && Encode(Scalar(c)) == c
  {
    if |c| == 2 {
      ScalarOfTwo(c);
    } else if |c| == 3 {
      ScalarOfThree(c);
    } else if |c| == 4 {
      ScalarOfFour(c);
    }
  }

  lemma FirstStep(cp: nat, b: byte)
    ensures 0xC2 <= b <= 0xDF ==> Decode(Decoder(ACCEPT, cp), b).codepoint == b - 0xC0
    ensures 0xE0 <= b <= 0xEF ==> Decode(Decoder(ACCEPT, cp), b).codepoint == b - 0xE0
    ensures 0xF0 <= b <= 0xF4 ==> Decode(Decoder(ACCEPT, cp), b).codepoint == b - 0xF0
    ensures b <= 0x7F ==> Decode(Decoder(ACCEPT, cp), b) == Decoder(ACCEPT, b)
  {
  }

  lemma InnerStep(state: nat, cp: nat, b: byte)
    requires 2 <= state <= 8 && Tail(b) && cp < 0x8000
    ensures Decode(Decoder(state, cp), b).codepoint == Six(cp, b)
  {
    hide After;
    assert b % 0x40 == b - 0x80;
  }

  /** The bytes still missing in a state inside a character. */
  function Missing(state: nat): nat
  {
    if state == 2 then 1 else if 3 <= state <= 5 then 2 else 3
  }

  function Sixes(high: nat, t: seq<byte>): nat
    requires forall i | 0 <= i < |t| :: Tail(t[i])
    decreases |t|
  {
    if t == [] then high else Sixes(Six(high, t[0]), t[1..])
  }

  lemma MissingStep(state: nat, t: seq<byte>)
    requires 2 <= state <= 8 && |t| == Missing(state) && Continues(state, t)
    ensures Tail(t[0])
    ensures |t| > 1 ==> 2 <= After(state, t[0]) <= 8 && Missing(After(state, t[0])) == |t| - 1
    ensures |t| == 1 ==> After(state, t[0]) == ACCEPT
    ensures Continues(After(state, t[0]), t[1..])
  {
    ContinuesStep(state, t);
    InnerByte(t[0]);
    hide After, Octets;
  }

  lemma {:induction false} CodepointInside(state: nat, cp: nat, t: seq<byte>)
    requires 2 <= state <= 8 && |t| == Missing(state) && Continues(state, t)
    requires cp < if |t| == 3 then 8 else if |t| == 2 then 0x200 else 0x8000
    ensures forall i | 0 <= i < |t| :: Tail(t[i])
    ensures Run(Decoder(state, cp), t) == Decoder(ACCEPT, Sixes(cp, t))
    decreases |t|
  {
    hide Continues, After, FirstBits, Tail;
    MissingStep(state, t);
    InnerStep(state, cp, t[0]);
    if |t| > 1 {
      CodepointInside(After(state, t[0]), Six(cp, t[0]), t[1..]);
      assert t == [t[0]] + t[1..];
    }
  }

  lemma {:induction false} SixesAre(high: nat, t: seq<byte>)
    requires |t| <= 3 && forall i | 0 <= i < |t| :: Tail(t[i])
    ensures |t| == 0 ==> Sixes(high, t) == high
    ensures |t| == 1 ==> Sixes(high, t) == Six(high, t[0])
    ensures |t| == 2 ==> Sixes(high, t) == Six(Six(high, t[0]), t[1])
    ensures |t| == 3 ==> Sixes(high, t) == Six(Six(Six(high, t[0]), t[1]), t[2])
    decreases |t|
  {
    if t != [] {
      SixesAre(Six(high, t[0]), t[1..]);
    }
  }

  /** Whatever the code point was before, behind a character it is the number the character stands for. */
  lemma CodepointAtAccept(cp: nat, c: seq<byte>)
    requires Character(c)
    ensures Run(Decoder(ACCEPT, cp), c) == Decoder(ACCEPT, Scalar(c))
  {
    FirstStep(cp, c[0]);
    FirstByte(c[0]);
    hide After, FirstBits, Tail, Second, Octets, Six;
    var d, t := Decode(Decoder(ACCEPT, cp), c[0]), c[1..];
    if |c| > 1 {
      assert Octets(c) by { OctetsOf([c]); assert Concat([c]) == c; }
      OctetsFirst(c);
      CodepointInside(d.state, d.codepoint, t);
      SixesAre(d.codepoint, t);
    }
  }
}
