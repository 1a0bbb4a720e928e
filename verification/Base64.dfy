/**
 The three Base64 encoders: the resumable one, the recursive one, and the loop that sends credentials
 three bytes at a time. All are measured against the encoding of RFC 4648, section 4.
 Bits that are joined by `|` never overlap here, so joining them is addition.
 */
module Base64 {
  import opened Common
  import opened Arith

  // ----- The encoding of RFC 4648

  const PAD: byte := '=' as int

  /** The character for a 6-bit value; `=` for larger ones, which no encoder asks for. */
  function EncodeValue(v: byte): byte {
    if v < 26 then 65 + v
    else if v < 52 then 97 + (v - 26)
    else if v < 62 then 48 + (v - 52)
    else if v == 62 then 43
    else if v == 63 then 47
    else PAD
  }

  /** The 6-bit value of a character of the alphabet. */
  function DecodeValue(c: byte): Option<byte> {
    if 65 <= c <= 90 then Some(c - 65)
    else if 97 <= c <= 122 then Some(c - 97 + 26)
    else if 48 <= c <= 57 then Some(c - 48 + 52)
    else if c == 43 then Some(62)
    else if c == 47 then Some(63)
    else None
  }

  lemma ValueRoundTrip(v: byte, c: byte)
    requires v < 64
    ensures EncodeValue(v) == c <==> DecodeValue(c) == Some(v)
  {}

  /** The 24-bit group of three bytes as four 6-bit values. */
  function Quad(a: byte, b: byte, c: byte): (q: seq<byte>)
    ensures |q| == 4 && forall i :: 0 <= i < 4 ==> q[i] < 64
  {
    var n := a * 0x1_0000 + b * 0x100 + c;
    [n / 0x4_0000, n / 0x1000 % 64, n / 64 % 64, n % 64]
  }

  /** Three bytes at a time; a last group of one or two bytes is completed by zero bits and padding. */
  function Encode(s: seq<byte>): (t: seq<byte>)
    ensures s != [] ==> |t| >= 4
  {
    if s == [] then []
    else
      var q := Quad(s[0], ByteAt(s, 1), ByteAt(s, 2));
      if |s| == 1 then [EncodeValue(q[0]), EncodeValue(q[1]), PAD, PAD]
      else if |s| == 2 then [EncodeValue(q[0]), EncodeValue(q[1]), EncodeValue(q[2]), PAD]
      else Chars(q) + Encode(s[3..])
  }

  /** The byte at i, or zero bits where there is none. */
  function ByteAt(s: seq<byte>, i: nat): byte {
    if i < |s| then s[i] else 0
  }

  function Chars(q: seq<byte>): seq<byte>
    requires |q| == 4
  {
    [EncodeValue(q[0]), EncodeValue(q[1]), EncodeValue(q[2]), EncodeValue(q[3])]
  }

  /** Four values as three bytes. */
  function Triple(w: byte, x: byte, y: byte, z: byte): (t: seq<byte>)
    requires w < 64 && x < 64 && y < 64 && z < 64
    ensures |t| == 3
  {
    var n := w * 0x4_0000 + x * 0x1000 + y * 64 + z;
    [n / 0x1_0000, n / 0x100 % 0x100, n % 0x100]
  }

  /** A strict decoder: whole groups only, padding only at the end, unused bits zero. */
  function Decode(t: seq<byte>): Option<seq<byte>>
  {
    if t == [] then Some([])
    else if |t| < 4 || DecodeValue(t[0]).None? || DecodeValue(t[1]).None? then None
    else
      var w, x := DecodeValue(t[0]).value, DecodeValue(t[1]).value;
      if t[2..] == [PAD, PAD] then
        if x % 16 == 0 && w < 64 && x < 64 then Some(Triple(w, x, 0, 0)[..1]) else None
      else if DecodeValue(t[2]).None? then None
      else
        var y := DecodeValue(t[2]).value;
        if t[3..] == [PAD] then
          if y % 4 == 0 then Some(Triple(w, x, y, 0)[..2]) else None
        else if DecodeValue(t[3]).None? || Decode(t[4..]).None? then None
        else Some(Triple(w, x, y, DecodeValue(t[3]).value) + Decode(t[4..]).value)
  }

  /** The group in terms of shifts and masks, as the encoders compute it. */
  lemma {:induction false} QuadShifts(a: byte, b: byte, c: byte)
    ensures Quad(a, b, c) == [a / 4, a % 4 * 16 + b / 16, b % 16 * 4 + c / 64, c % 64]
  {
    var w, x, y, z := a / 4, a % 4 * 16 + b / 16, b % 16 * 4 + c / 64, c % 64;
    var n := a * 0x1_0000 + b * 0x100 + c;
    assert n == w * 0x4_0000 + (x * 0x1000 + y * 64 + z);
    DivModUnique(n, w, x * 0x1000 + y * 64 + z, 0x4_0000);
    DivModUnique(n, w * 64 + x, y * 64 + z, 0x1000);
    DivModUnique(w * 64 + x, w, x, 64);
    DivModUnique(n, w * 0x1000 + x * 64 + y, z, 64);
    DivModUnique(w * 0x1000 + x * 64 + y, w * 64 + x, y, 64);
  }

  lemma {:induction false} TripleShifts(w: byte, x: byte, y: byte, z: byte)
    requires w < 64 && x < 64 && y < 64 && z < 64
    ensures Triple(w, x, y, z) == [w * 4 + x / 16, x % 16 * 16 + y / 4, y % 4 * 64 + z]
  {
    var a, b, c := w * 4 + x / 16, x % 16 * 16 + y / 4, y % 4 * 64 + z;
    var n := w * 0x4_0000 + x * 0x1000 + y * 64 + z;
    assert n == a * 0x1_0000 + (b * 0x100 + c);
    DivModUnique(n, a, b * 0x100 + c, 0x1_0000);
    DivModUnique(n, a * 0x100 + b, c, 0x100);
    DivModUnique(a * 0x100 + b, a, b, 0x100);
  }

  lemma {:induction false} QuadTriple(a: byte, b: byte, c: byte)
    ensures var q := Quad(a, b, c);
      && Triple(q[0], q[1], q[2], q[3]) == [a, b, c]
      && (c == 0 ==> q[3] == 0 && q[2] % 4 == 0)
      && (b == 0 && c == 0 ==> q[2] == 0 && q[1] % 16 == 0)
  {
    hide Quad, Triple;
    var q := Quad(a, b, c);
    QuadShifts(a, b, c);
    TripleShifts(q[0], q[1], q[2], q[3]);
    DivModUnique(q[1], a % 4, b / 16, 16);
    DivModUnique(q[2], b % 16, c / 64, 4);
  }

  lemma {:induction false} TripleQuad(w: byte, x: byte, y: byte, z: byte)
    requires w < 64 && x < 64 && y < 64 && z < 64
    ensures var t := Triple(w, x, y, z);
      && Quad(t[0], t[1], t[2]) == [w, x, y, z]
      && (z == 0 && y % 4 == 0 ==> t[2] == 0)
      && (z == 0 && y == 0 && x % 16 == 0 ==> t[1] == 0 && t[2] == 0)
  {
    hide Quad, Triple;
    var t := Triple(w, x, y, z);
    TripleShifts(w, x, y, z);
    QuadShifts(t[0], t[1], t[2]);
    DivModUnique(t[0], w, x / 16, 4);
    DivModUnique(t[1], x % 16, y / 4, 16);
    DivModUnique(t[2], y % 4, z, 64);
  }

  /** The text decodes back, and it is the only text that does. */
  lemma {:induction false} DecodesExactlyTheEncoded(t: seq<byte>, s: seq<byte>)
    ensures Decode(t) == Some(s) <==> t == Encode(s)
  {
    if Decode(t).Some? { DecodedEncodes(t); }
    EncodedDecodes(s);
  }

  lemma {:induction false} EncodedDecodes(s: seq<byte>)
    ensures Decode(Encode(s)) == Some(s)
  {
    hide Encode, Decode;
    if s == [] {
      NothingDecodes();
    } else if |s| >= 3 {
      EncodedDecodes(s[3..]);
      GroupDecodes(s);
    } else {
      ShortDecodes(s);
    }
  }

  lemma NothingDecodes()
    ensures Decode(Encode([])) == Some([])
  {}

  lemma {:induction false} GroupDecodes(s: seq<byte>)
    requires |s| >= 3 && Decode(Encode(s[3..])) == Some(s[3..])
    ensures Decode(Encode(s)) == Some(s)
  {
    hide Encode, Decode, Chars, Quad, Triple, DecodeValue, EncodeValue;
    var q, t := Quad(s[0], s[1], s[2]), Encode(s);
    QuadTriple(s[0], s[1], s[2]);
    CharValues(q);
    EncodeGroup(s);
    CharsThen(q, Encode(s[3..]));
    DecodeGroup(t);
    assert s == [s[0], s[1], s[2]] + s[3..];
  }

  lemma {:induction false} ShortDecodes(s: seq<byte>)
    requires 1 <= |s| <= 2
    ensures Decode(Encode(s)) == Some(s)
  {
    hide Encode, Decode, Quad, Triple, DecodeValue, EncodeValue;
    var q := Quad(s[0], ByteAt(s, 1), ByteAt(s, 2));
    QuadTriple(s[0], ByteAt(s, 1), ByteAt(s, 2));
    CharValues(q);
    EncodeShort(s, q);
    if |s| == 2 {
      DecodeTwo(Encode(s));
      assert s == [s[0], s[1], 0][..2];
    } else {
      DecodeOne(Encode(s));
      assert s == [s[0], 0, 0][..1];
    }
  }

  lemma DecodeTwo(t: seq<byte>)
    requires |t| == 4 && t[3] == PAD && forall i :: 0 <= i < 3 ==> DecodeValue(t[i]).Some? && DecodeValue(t[i]).value < 64
    requires DecodeValue(t[2]).value % 4 == 0
    ensures Decode(t) == Some(Triple(DecodeValue(t[0]).value, DecodeValue(t[1]).value, DecodeValue(t[2]).value, 0)[..2])
  {
    hide DecodeValue, Triple;
    PadIsNoValue();
    assert t[2..][0] == t[2] && t[3..] == [PAD];
  }

  lemma DecodeOne(t: seq<byte>)
    requires |t| == 4 && t[2] == t[3] == PAD
    requires forall i :: 0 <= i < 2 ==> DecodeValue(t[i]).Some? && DecodeValue(t[i]).value < 64
    requires DecodeValue(t[1]).value % 16 == 0
    ensures Decode(t) == Some(Triple(DecodeValue(t[0]).value, DecodeValue(t[1]).value, 0, 0)[..1])
  {
    hide DecodeValue, Triple;
    assert t[2..] == [PAD, PAD];
  }

  lemma CharValues(q: seq<byte>)
    requires |q| == 4 && forall i :: 0 <= i < 4 ==> q[i] < 64
    ensures forall i :: 0 <= i < 4 ==> DecodeValue(EncodeValue(q[i])) == Some(q[i])
    ensures DecodeValue(PAD) == None
  {
    forall i | 0 <= i < 4 ensures DecodeValue(EncodeValue(q[i])) == Some(q[i]) {
      ValueRoundTrip(q[i], EncodeValue(q[i]));
    }
  }

  lemma EncodeGroup(s: seq<byte>)
    requires |s| >= 3
    ensures Encode(s) == Chars(Quad(s[0], s[1], s[2])) + Encode(s[3..])
  {
    hide Quad, EncodeValue, Chars;
  }

  lemma CharsThen(q: seq<byte>, rest: seq<byte>)
    requires |q| == 4
    ensures (Chars(q) + rest)[4..] == rest
    ensures forall i :: 0 <= i < 4 ==> (Chars(q) + rest)[i] == EncodeValue(q[i])
  {
    hide EncodeValue;
  }

  /** A full group is decoded, and what follows it is decoded on its own. */
  lemma DecodeGroup(t: seq<byte>)
    requires |t| >= 4 && Decode(t[4..]).Some?
    requires forall i :: 0 <= i < 4 ==> DecodeValue(t[i]).Some? && DecodeValue(t[i]).value < 64
    ensures var w, x := DecodeValue(t[0]).value, DecodeValue(t[1]).value;
      var y, z := DecodeValue(t[2]).value, DecodeValue(t[3]).value;
      Decode(t) == Some(Triple(w, x, y, z) + Decode(t[4..]).value)
  {
    hide DecodeValue, Triple;
    PadIsNoValue();
    assert t[2..][0] == t[2] && t[3..][0] == t[3];
  }

  lemma PadIsNoValue()
    ensures DecodeValue(PAD) == None
  {}

  lemma {:induction false} DecodedEncodes(t: seq<byte>)
    requires Decode(t).Some?
    ensures Encode(Decode(t).value) == t
  {
    hide Quad, Triple, EncodeValue, DecodeValue;
    if t == [] { return; }
    var w, x := DecodeValue(t[0]).value, DecodeValue(t[1]).value;
    var y := if t[2..] == [PAD, PAD] then 0 else DecodeValue(t[2]).value;
    var z := if t[2..] == [PAD, PAD] || t[3..] == [PAD] then 0 else DecodeValue(t[3]).value;
    ValuesAreSmall();
    TripleQuad(w, x, y, z);
    ValueRoundTrip(w, t[0]);
    ValueRoundTrip(x, t[1]);
    ValueRoundTrip(y, t[2]);
    ValueRoundTrip(z, t[3]);
    if t[2..] == [PAD, PAD] {
    } else if t[3..] == [PAD] {
    } else {
      DecodedEncodes(t[4..]);
      var rest := Decode(t[4..]).value;
      var s := Triple(w, x, y, z) + rest;
      assert s[3..] == rest;
    }
  }

  lemma ValuesAreSmall()
    ensures forall c :: DecodeValue(c).Some? ==> DecodeValue(c).value < 64
  {}

  /** Whole groups in front are encoded on their own. */
  lemma {:induction false} EncodeAppend(a: seq<byte>, b: seq<byte>)
    requires |a| % 3 == 0
    ensures Encode(a + b) == Encode(a) + Encode(b)
  {
    hide Chars, Quad, Encode;
    if a == [] {
      EncodeNothing();
      assert a + b == b;
    } else {
      EncodeAppend(a[3..], b);
      assert (a + b)[3..] == a[3..] + b;
      EncodeGroup(a);
      EncodeGroup(a + b);
      Assoc(Chars(Quad(a[0], a[1], a[2])), Encode(a[3..]), Encode(b));
    }
  }

  /** No character of the encoding is NUL. */
  lemma {:induction false} EncodeHasNoNul(s: seq<byte>)
    ensures 0 !in Encode(s)
  {
    if |s| > 3 { EncodeHasNoNul(s[3..]); }
  }

  /** A group of the vectors, by its bits. */
  lemma VectorGroup(s: seq<byte>, t: seq<byte>, rest: seq<byte>)
    requires |s| == 3 && |t| == 4 && t[0] == EncodeValue(s[0] / 4) && t[1] == EncodeValue(s[0] % 4 * 16 + s[1] / 16)
    requires t[2] == EncodeValue(s[1] % 16 * 4 + s[2] / 64) && t[3] == EncodeValue(s[2] % 64)
    ensures Encode(s + rest) == t + Encode(rest)
  {
    hide EncodeValue, Encode, Quad;
    EncodeGroup(s + rest);
    QuadShifts(s[0], s[1], s[2]);
    assert (s + rest)[3..] == rest;
    assert t == [t[0], t[1], t[2], t[3]];
  }

  lemma VectorShort(s: seq<byte>, t: seq<byte>)
    requires 1 <= |s| <= 2 && |t| == 4 && t[0] == EncodeValue(s[0] / 4) && t[3] == PAD
    requires |s| == 1 ==> t[1] == EncodeValue(s[0] % 4 * 16) && t[2] == PAD
    requires |s| == 2 ==> t[1] == EncodeValue(s[0] % 4 * 16 + s[1] / 16) && t[2] == EncodeValue(s[1] % 16 * 4)
    ensures Encode(s) == t
  {
    hide EncodeValue, Encode, Quad;
    var q := Quad(s[0], ByteAt(s, 1), ByteAt(s, 2));
    QuadShifts(s[0], ByteAt(s, 1), ByteAt(s, 2));
    EncodeShort(s, q);
    assert t == [t[0], t[1], t[2], t[3]];
  }

  /** The characters in the vectors. */
  lemma VectorChars()
    ensures EncodeValue(25) == 'Z' as int && EncodeValue(32) == 'g' as int && EncodeValue(38) == 'm' as int
    ensures EncodeValue(60) == '8' as int && EncodeValue(61) == '9' as int && EncodeValue(47) == 'v' as int
    ensures EncodeValue(24) == 'Y' as int && EncodeValue(4) == 'E' as int && EncodeValue(5) == 'F' as int
    ensures EncodeValue(50) == 'y' as int && EncodeValue(62) == '+' as int && EncodeValue(63) == '/' as int
    ensures EncodeValue(0) == 'A' as int && EncodeValue(26) == 'a' as int && EncodeValue(52) == '0' as int
  {}

  /** The test vectors of section 10 of RFC 4648, which read "f" to "foobar". */
  lemma {:induction false} PublishedVectors()
    ensures Encode(Codes("f")) == Codes("Zg==") && Encode(Codes("fo")) == Codes("Zm8=") && Encode(Codes("foo")) == Codes("Zm9v")
    ensures Encode(Codes("foob")) == Codes("Zm9vYg==") && Encode(Codes("fooba")) == Codes("Zm9vYmE=")
    ensures Encode(Codes("foobar")) == Codes("Zm9vYmFy")
  {
    hide Encode, EncodeValue, Codes;
    VectorTexts();
    ShortVectors();
    var foo, bar := Codes("foo"), Codes("bar");
    assert foo + [] == foo && bar + [] == bar;
    EncodeNothing();
    GroupVectors();
  }

  lemma GroupVectors()
    ensures Encode(Codes("foo") + []) == Codes("Zm9v") + Encode([])
    ensures Encode(Codes("bar") + []) == Codes("YmFy") + Encode([])
    ensures Encode(Codes("foo") + Codes("b")) == Codes("Zm9v") + Encode(Codes("b"))
    ensures Encode(Codes("foo") + Codes("ba")) == Codes("Zm9v") + Encode(Codes("ba"))
    ensures Encode(Codes("foo") + Codes("bar")) == Codes("Zm9v") + Encode(Codes("bar"))
  {
    hide Encode, EncodeValue;
    VectorChars();
    VectorGroup(Codes("foo"), Codes("Zm9v"), []);
    VectorGroup(Codes("bar"), Codes("YmFy"), []);
    VectorGroup(Codes("foo"), Codes("Zm9v"), Codes("b"));
    VectorGroup(Codes("foo"), Codes("Zm9v"), Codes("ba"));
    VectorGroup(Codes("foo"), Codes("Zm9v"), Codes("bar"));
  }

  lemma ShortVectors()
    ensures Encode(Codes("f")) == Codes("Zg==") && Encode(Codes("fo")) == Codes("Zm8=")
    ensures Encode(Codes("b")) == Codes("Yg==") && Encode(Codes("ba")) == Codes("YmE=")
  {
    hide Encode, EncodeValue;
    VectorChars();
    VectorShort(Codes("f"), Codes("Zg=="));
    VectorShort(Codes("fo"), Codes("Zm8="));
    VectorShort(Codes("b"), Codes("Yg=="));
    VectorShort(Codes("ba"), Codes("YmE="));
  }

  lemma VectorTexts()
    ensures Codes("foo") + Codes("b") == Codes("foob") && Codes("foo") + Codes("ba") == Codes("fooba")
    ensures Codes("foo") + Codes("bar") == Codes("foobar")
    ensures Codes("Zm9v") + [] == Codes("Zm9v") && Codes("YmFy") + [] == Codes("YmFy")
    ensures Codes("Zm9v") + Codes("Yg==") == Codes("Zm9vYg==") && Codes("Zm9v") + Codes("YmE=") == Codes("Zm9vYmE=")
    ensures Codes("Zm9v") + Codes("YmFy") == Codes("Zm9vYmFy")
  {}

  // ----- The resumable encoder

  datatype Step = A | B | C

  /** Where the encoder stands: how far into a group, and the bits left over from the last byte. */
  datatype Enc = Enc(step: Step, result: byte)

  const Fresh := Enc(Step.A, 0)

  /** The characters that one byte completes. */
  function ByteOut(e: Enc, c: byte): seq<byte>
    requires Carry(e)
  {
    match e.step
    case A => [EncodeValue(c / 4)]
    case B => [EncodeValue(e.result + c / 16)]
    case C => [EncodeValue(e.result + c / 64), EncodeValue(c % 64)]
  }

  function ByteNext(e: Enc, c: byte): Enc {
    match e.step
    case A => Enc(Step.B, c % 4 * 16)
    case B => Enc(Step.C, c % 16 * 4)
    case C => Enc(Step.A, c % 64)
  }

  /** The left-over bits are at the top of a 6-bit value, in two's or four's place. */
  predicate Carry(e: Enc) {
    match e.step
    case A => e.result < 64
    case B => e.result < 64 && e.result % 16 == 0
    case C => e.result < 64 && e.result % 4 == 0
  }

  /** What a block adds to the output. */
  function BlockOut(e: Enc, s: seq<byte>): seq<byte>
    requires Carry(e)
    decreases s
  {
    if s == [] then [] else ByteOut(e, s[0]) + BlockOut(ByteNext(e, s[0]), s[1..])
  }

  function BlockNext(e: Enc, s: seq<byte>): (next: Enc)
    requires Carry(e)
    ensures Carry(next)
    decreases s
  {
    if s == [] then e else BlockNext(ByteNext(e, s[0]), s[1..])
  }

  function EndOut(e: Enc): seq<byte> {
    match e.step
    case A => []
    case B => [EncodeValue(e.result), PAD, PAD]
    case C => [EncodeValue(e.result), PAD]
  }

  /** Two blocks are as good as one. */
  lemma {:induction false} BlockSplit(e: Enc, a: seq<byte>, b: seq<byte>)
    requires Carry(e)
    ensures BlockOut(e, a + b) == BlockOut(e, a) + BlockOut(BlockNext(e, a), b)
    ensures BlockNext(e, a + b) == BlockNext(BlockNext(e, a), b)
    decreases a
  {
    if a == [] {
      assert a + b == b;
    } else {
      var e' := ByteNext(e, a[0]);
      BlockSplit(e', a[1..], b);
      assert (a + b)[1..] == a[1..] + b;
      hide ByteOut, ByteNext, Carry;
      Assoc(ByteOut(e, a[0]), BlockOut(e', a[1..]), BlockOut(BlockNext(e, a), b));
    }
  }

  /** One block and the end make the encoding. At the start of a group the left-over bits are ignored. */
  lemma {:induction false} BlockIsEncode(e: Enc, s: seq<byte>)
    requires e.step == Step.A && Carry(e)
    ensures BlockOut(e, s) + EndOut(BlockNext(e, s)) == Encode(s)
    decreases |s|
  {
    if s == [] {
    } else if |s| < 3 {
      LastGroup(e, s);
    } else {
      var q := Quad(s[0], s[1], s[2]);
      EncodeGroup(s);
      var e' := FullGroup(e, s, q);
      BlockIsEncode(e', s[3..]);
      hide BlockOut, BlockNext, Encode, Carry, EndOut, Chars;
      Assoc(Chars(q), BlockOut(e', s[3..]), EndOut(BlockNext(e, s)));
    }
  }

  /** The characters written for the bytes of one group, and at the end of input inside it. */
  lemma {:induction false} GroupBytes(e: Enc, a: byte, b: byte, c: byte, q: seq<byte>)
    requires e.step == Step.A && Carry(e) && q == Quad(a, b, c)
    ensures var eb := ByteNext(e, a);
      && eb.step == Step.B && Carry(eb)
      && ByteOut(e, a) == [EncodeValue(q[0])] && ByteOut(eb, b) == [EncodeValue(q[1])]
      && (b == 0 ==> EndOut(eb) == [EncodeValue(q[1]), PAD, PAD])
    ensures var ec := ByteNext(ByteNext(e, a), b);
      && ec.step == Step.C && Carry(ec)
      && ByteOut(ec, c) == [EncodeValue(q[2]), EncodeValue(q[3])]
      && (c == 0 ==> EndOut(ec) == [EncodeValue(q[2]), PAD])
      && ByteNext(ec, c).step == Step.A && Carry(ByteNext(ec, c))
  {
    hide Quad, EncodeValue;
    QuadShifts(a, b, c);
  }

  lemma {:induction false} FullGroup(e: Enc, s: seq<byte>, q: seq<byte>) returns (e': Enc)
    requires e.step == Step.A && Carry(e) && |s| >= 3 && q == Quad(s[0], s[1], s[2])
    ensures e'.step == Step.A && Carry(e')
    ensures BlockOut(e, s) == Chars(q) + BlockOut(e', s[3..])
    ensures BlockNext(e, s) == BlockNext(e', s[3..])
  {
    hide BlockOut, BlockNext, Quad, ByteOut, ByteNext, EncodeValue, Carry;
    GroupBytes(e, s[0], s[1], s[2], q);
    var eb := ByteNext(e, s[0]);
    var ec := ByteNext(eb, s[1]);
    e' := ByteNext(ec, s[2]);
    BlockTurn(e, s);
    BlockTurn(eb, s[1..]);
    BlockTurn(ec, s[2..]);
    GlueThree(ByteOut(e, s[0]), ByteOut(eb, s[1]), ByteOut(ec, s[2]), BlockOut(e', s[3..]));
  }

  lemma GlueThree(x: seq<byte>, y: seq<byte>, z: seq<byte>, t: seq<byte>)
    ensures x + (y + (z + t)) == x + y + z + t
  {}

  lemma {:induction false} LastGroup(e: Enc, s: seq<byte>)
    requires e.step == Step.A && Carry(e) && 1 <= |s| < 3
    ensures BlockOut(e, s) + EndOut(BlockNext(e, s)) == Encode(s)
  {
    hide Quad, EncodeValue, Encode, BlockOut, BlockNext, ByteOut, ByteNext, EndOut, Carry;
    var a, b := s[0], ByteAt(s, 1);
    var q, eb := Quad(a, b, 0), ByteNext(e, a);
    GroupBytes(e, a, b, 0, q);
    EncodeShort(s, q);
    BlockTurn(e, s);
    if |s| == 2 {
      BlockTurn(eb, s[1..]);
    }
  }

  lemma EncodeShort(s: seq<byte>, q: seq<byte>)
    requires 1 <= |s| < 3 && q == Quad(s[0], ByteAt(s, 1), 0)
    ensures |s| == 1 ==> Encode(s) == [EncodeValue(q[0]), EncodeValue(q[1]), PAD, PAD]
    ensures |s| == 2 ==> Encode(s) == [EncodeValue(q[0]), EncodeValue(q[1]), EncodeValue(q[2]), PAD]
  {
    hide Quad, EncodeValue;
  }

  lemma BlockTurn(e: Enc, s: seq<byte>)
    requires Carry(e) && s != []
    ensures Carry(ByteNext(e, s[0]))
    ensures BlockOut(e, s) == ByteOut(e, s[0]) + BlockOut(ByteNext(e, s[0]), s[1..])
    ensures BlockNext(e, s) == BlockNext(ByteNext(e, s[0]), s[1..])
    ensures |s| > 1 ==> s[1..][0] == s[1] && s[1..][1..] == s[2..]
    ensures |s| > 2 ==> s[2..][0] == s[2] && s[2..][1..] == s[3..]
    ensures |s| == 1 ==> BlockOut(e, s) == ByteOut(e, s[0]) && BlockNext(e, s) == ByteNext(e, s[0])
  {
    BlockOnce(e, s);
    hide BlockOut, BlockNext, ByteOut, ByteNext, Carry;
    if |s| == 1 {
      assert s[1..] == [];
      BlockOfNothing(ByteNext(e, s[0]));
    }
  }

  lemma BlockOnce(e: Enc, s: seq<byte>)
    requires Carry(e) && s != []
    ensures Carry(ByteNext(e, s[0]))
    ensures BlockOut(e, s) == ByteOut(e, s[0]) + BlockOut(ByteNext(e, s[0]), s[1..])
    ensures BlockNext(e, s) == BlockNext(ByteNext(e, s[0]), s[1..])
  {}

  /** Everything that the blocks add, one after the other from a fresh start, and then the end. */
  function PiecesOut(e: Enc, pieces: seq<seq<byte>>): seq<byte>
    requires Carry(e)
    decreases |pieces|
  {
    if pieces == [] then EndOut(e)
    else BlockOut(e, pieces[0]) + PiecesOut(BlockNext(e, pieces[0]), pieces[1..])
  }

  lemma {:induction false} PiecesAreOneBlock(e: Enc, pieces: seq<seq<byte>>)
    requires Carry(e)
    ensures PiecesOut(e, pieces) == BlockOut(e, Joined(pieces)) + EndOut(BlockNext(e, Joined(pieces)))
    decreases |pieces|
  {
    if pieces != [] {
      var e', s, rest := BlockNext(e, pieces[0]), pieces[0], Joined(pieces[1..]);
      PiecesAreOneBlock(e', pieces[1..]);
      BlockSplit(e, s, rest);
      hide BlockOut, BlockNext, EndOut;
      Assoc(BlockOut(e, s), BlockOut(e', rest), EndOut(BlockNext(e', rest)));
    }
  }

  /** However the input is cut into blocks, the text is the encoding of the whole, and it decodes to the whole. */
  lemma {:induction false} AnyCutEncodes(pieces: seq<seq<byte>>)
    ensures PiecesOut(Fresh, pieces) == Encode(Joined(pieces))
    ensures Decode(PiecesOut(Fresh, pieces)) == Some(Joined(pieces))
  {
    PiecesAreOneBlock(Fresh, pieces);
    BlockIsEncode(Fresh, Joined(pieces));
    EncodedDecodes(Joined(pieces));
  }

  // ----- Lengths

  /** `base64_encode_expected_len`: clearing the two low bits rounds down to a multiple of four. */
  function ExpectedLen(n: nat): nat {
    (4 * n / 3 + 3) / 4 * 4
  }

  lemma {:induction false} EncodeLength(s: seq<byte>)
    ensures |Encode(s)| == 4 * ((|s| + 2) / 3)
  {
    if |s| >= 3 {
      EncodeLength(s[3..]);
      EncodeGroup(s);
      hide Encode, Quad;
      DivModUnique(|s| + 2, (|s| - 3 + 2) / 3 + 1, (|s| - 3 + 2) % 3, 3);
    }
  }

  lemma ExpectedLenUp(n: nat, q: nat, r: nat)
    requires n == 3 * q + r && r < 3
    ensures ExpectedLen(n) == 4 * ((n + 2) / 3)
  {
    DivModUnique(4 * n, 4 * q + r, r, 3);
    DivModUnique(4 * q + r + 3, if r == 0 then q else q + 1, if r == 0 then 3 else r - 1, 4);
    DivModUnique(n + 2, if r == 0 then q else q + 1, if r == 0 then 2 else r - 1, 3);
  }

  /** The macro gives exactly the length of the encoding. */
  lemma ExpectedLenIsExact(s: seq<byte>)
    ensures ExpectedLen(|s|) == |Encode(s)| == 4 * ((|s| + 2) / 3)
  {
    EncodeLength(s);
    ExpectedLenUp(|s|, |s| / 3, |s| % 3);
  }

  /** What `b64_encode` takes the output to need: a byte for every 6 bits of input. */
  function Asked(n: nat): nat { n * 8 / 6 }

  lemma AskedSpace(n: nat, q: nat, r: nat)
    requires n == 3 * q + r && r < 3
    ensures Asked(n) == 4 * q + r && 4 * ((n + 2) / 3) == if r == 0 then 4 * q else 4 * q + 4
  {
    DivModUnique(n * 8, 4 * q + r, 2 * r, 6);
    DivModUnique(n + 2, if r == 0 then q else q + 1, if r == 0 then 2 else r - 1, 3);
  }

  /** The space that `b64_encode` asks for is what it needs exactly when the input is whole groups. */
  lemma AskedSpaceIsEnough(s: seq<byte>)
    ensures Asked(|s|) <= |Encode(s)|
    ensures Asked(|s|) == |Encode(s)| <==> |s| % 3 == 0
  {
    EncodeLength(s);
    AskedSpace(|s|, |s| / 3, |s| % 3);
  }

  /** Offered n characters, `b64_encode` does not refuse, and fills more than n. */
  predicate Overfills(s: seq<byte>, n: nat) {
    Asked(|s|) <= n < |Encode(s)|
  }

  /** There is such an n exactly when the input is not whole groups. */
  lemma OverfillsExactly(s: seq<byte>)
    ensures (exists n: nat :: Overfills(s, n)) <==> |s| % 3 != 0
  {
    hide Encode, Asked;
    AskedSpaceIsEnough(s);
    assert Overfills(s, Asked(|s|)) <==> Asked(|s|) < |Encode(s)|;
  }

  /** One byte, one character offered: four are filled. */
  lemma OneByteOverfills(b: byte)
    ensures Overfills([b], 1) && |Encode([b])| == 4
  {
    EncodeLength([b]);
  }

  // ----- The resumable encoder on its buffers

  /** `after` is `orig` with `text` written over it at `at`. */
  ghost predicate Written(orig: seq<byte>, at: nat, text: seq<byte>, after: seq<byte>) {
    at + |text| <= |orig| && after == orig[..at] + text + orig[at + |text|..]
  }

  /** Overwriting what comes next extends what has been written. */
  lemma Extend(orig: seq<byte>, at: nat, done: seq<byte>, before: seq<byte>, more: seq<byte>, after: seq<byte>)
    requires Written(orig, at, done, before) && Written(before, at + |done|, more, after)
    ensures Written(orig, at, done + more, after)
  {
    var k := at + |done|;
    assert before[..k] == orig[..at] + done;
    assert before[k + |more|..] == orig[k + |more|..];
  }

  class EncodeState {
    var step: Step
    var result: byte

    constructor ()
      ensures Value() == Fresh
    {
      step, result := Step.A, 0;
    }

    function Value(): Enc
      reads this
    {
      Enc(step, result)
    }
  }

  /**
   `base64_encode_block`: the switch that jumps into the loop is a choice by step at each byte.
   */
  method EncodeBlock(plain: seq<byte>, code: array<byte>, at: nat, st: EncodeState) returns (n: nat)
    requires Carry(st.Value()) && at + |BlockOut(st.Value(), plain)| <= code.Length
    modifies code, st
    ensures st.Value() == BlockNext(old(st.Value()), plain)
    ensures n == |BlockOut(old(st.Value()), plain)|
    ensures Written(old(code[..]), at, BlockOut(old(st.Value()), plain), code[..])
  {
    hide BlockOut, BlockNext, ByteOut, ByteNext, EncodeValue, Carry;
    ghost var e0, orig := st.Value(), code[..];
    ghost var all, done := BlockOut(e0, plain), [];
    var p, w := 0, at;
    var step, result := st.step, st.result;
    assert plain[0..] == plain;
    assert orig == orig[..at] + [] + orig[at..];
    while p != |plain|
      invariant p <= |plain| && w == at + |done| && Carry(Enc(step, result))
      invariant all == done + BlockOut(Enc(step, result), plain[p..])
      invariant BlockNext(e0, plain) == BlockNext(Enc(step, result), plain[p..])
      invariant Written(orig, at, done, code[..])
    {
      var fragment := plain[p];
      ghost var e, before := Enc(step, result), code[..];
      ByteDone(e, plain, p, done);
      step, result, w := EncodeByte(step, result, fragment, code, w);
      Extend(orig, at, done, before, ByteOut(e, fragment), code[..]);
      done := done + ByteOut(e, fragment);
      p := p + 1;
    }
    st.result, st.step := result, step;
    n := w - at;
    assert plain[p..] == [];
    BlockOfNothing(Enc(step, result));
  }

  /** One pass from a `case` of the switch to the next: the fragment completes one or two characters. */
  method EncodeByte(step0: Step, result0: byte, fragment: byte, code: array<byte>, w0: nat)
      returns (step: Step, result: byte, w: nat)
    requires Carry(Enc(step0, result0)) && w0 + |ByteOut(Enc(step0, result0), fragment)| <= code.Length
    modifies code
    ensures Enc(step, result) == ByteNext(Enc(step0, result0), fragment) && Carry(Enc(step, result))
    ensures w == w0 + |ByteOut(Enc(step0, result0), fragment)|
    ensures Written(old(code[..]), w0, ByteOut(Enc(step0, result0), fragment), code[..])
  {
    hide EncodeValue, Written;
    w := w0;
    ghost var orig := code[..];
    match step0 {
      case A =>
        result := fragment / 4;
        code[w] := EncodeValue(result);
        w := w + 1;
        result := fragment % 4 * 16;
        step := Step.B;
        WrittenOne(orig, w0, code[w0]);
      case B =>
        result := result0 + fragment / 16;
        code[w] := EncodeValue(result);
        w := w + 1;
        result := fragment % 16 * 4;
        step := Step.C;
        WrittenOne(orig, w0, code[w0]);
      case C =>
        result := result0 + fragment / 64;
        code[w] := EncodeValue(result);
        w := w + 1;
        result := fragment % 64;
        code[w] := EncodeValue(result);
        w := w + 1;
        step := Step.A;
        WrittenTwo(orig, w0, code[w0], code[w0 + 1]);
    }
  }

  lemma WrittenOne(orig: seq<byte>, w: nat, c: byte)
    requires w < |orig|
    ensures Written(orig, w, [c], orig[w := c])
  {}

  lemma WrittenTwo(orig: seq<byte>, w: nat, c: byte, d: byte)
    requires w + 1 < |orig|
    ensures Written(orig, w, [c, d], orig[w := c][w + 1 := d])
  {}

  lemma ByteDone(e: Enc, plain: seq<byte>, p: nat, done: seq<byte>)
    requires p < |plain| && Carry(e)
    ensures var e' := ByteNext(e, plain[p]);
      && Carry(e') && BlockNext(e, plain[p..]) == BlockNext(e', plain[p + 1..])
      && done + BlockOut(e, plain[p..]) == (done + ByteOut(e, plain[p])) + BlockOut(e', plain[p + 1..])
  {
    hide BlockOut, BlockNext, ByteOut, ByteNext;
    BlockTurn(e, plain[p..]);
    assert plain[p..][1..] == plain[p + 1..];
    Assoc(done, ByteOut(e, plain[p]), BlockOut(ByteNext(e, plain[p]), plain[p + 1..]));
  }

  lemma BlockOfNothing(e: Enc)
    requires Carry(e)
    ensures BlockOut(e, []) == [] && BlockNext(e, []) == e
  {}

  /** `base64_encode_blockend`: the left-over bits, the padding, and a terminating NUL. */
  method EncodeBlockEnd(code: array<byte>, at: nat, st: EncodeState) returns (n: nat)
    requires Carry(st.Value()) && at + |EndOut(st.Value())| < code.Length
    modifies code
    ensures n == |EndOut(st.Value())|
    ensures code[..] == old(code[..at]) + EndOut(st.Value()) + [0] + old(code[at + n + 1..])
  {
    var w := at;
    match st.step {
      case B =>
        code[w], code[w + 1], code[w + 2] := EncodeValue(st.result), PAD, PAD;
        w := w + 3;
      case C =>
        code[w], code[w + 1] := EncodeValue(st.result), PAD;
        w := w + 2;
      case A =>
    }
    code[w] := 0;
    n := w - at;
  }

  /** `base64_encode_chars`: one block and the end. The buffer needs room for the text and its NUL. */
  method EncodeChars(plain: seq<byte>, code: array<byte>) returns (n: nat)
    requires |Encode(plain)| < code.Length
    modifies code
    ensures n == |Encode(plain)|
    ensures code[..] == Encode(plain) + [0] + old(code[n + 1..])
  {
    hide BlockOut, BlockNext, EndOut, Encode;
    var st := new EncodeState();
    ghost var out := BlockOut(Fresh, plain);
    BlockIsEncode(Fresh, plain);
    var len := EncodeBlock(plain, code, 0, st);
    ghost var mid := code[..];
    assert code[..len] == out;
    var tail := EncodeBlockEnd(code, len, st);
    n := len + tail;
    assert mid[n + 1..] == old(code[n + 1..]);
  }

  /** `base64::encode`: a buffer of the expected length, read back as a C string. */
  method EncodeData(data: seq<byte>) returns (text: seq<byte>)
    ensures text == Encode(data)
  {
    hide Encode;
    var size := ExpectedLen(|data|) + 1;
    var buffer := new byte[size];
    ExpectedLenIsExact(data);
    EncodeHasNoNul(data);
    CStringWhole(Encode(data));
    var n := EncodeChars(data, buffer);
    assert buffer[..] == Encode(data) + [0];
    text := CString(buffer[..]);
  }

  // ----- The recursive encoder

  /**
   `b64_encode`, writing at `at`. It refuses when less than 8 bits in 6 are offered; when it does not, it
   fills whole groups of four, even when fewer characters were offered.
   */
  method B64Encode(input: seq<byte>, output: array<byte>, at: nat, outLen: nat) returns (n: nat)
    requires at + outLen <= output.Length
    requires outLen < Asked(|input|) || at + |Encode(input)| <= output.Length
    modifies output
    ensures outLen < Asked(|input|) ==> n == Asked(|input|) && output[..] == old(output[..])
    ensures outLen >= Asked(|input|) ==>
      && n == |Encode(input)|
      && Written(old(output[..]), at, Encode(input), output[..])
    decreases if 1 <= |input| <= 3 then 0 else 2
  {
    hide Encode, Asked, Written, IsWhole;
    if outLen < Asked(|input|) {
      return Asked(|input|);
    }
    var m := |input| / 3;
    EncodeLength(input);
    RoomForGroups(|input|, m);
    n := (|input| + 2) / 3 * 4;
    if 1 <= |input| <= 3 {
      B64Group(input, output, at);
    } else {
      NothingYet(input, output[..], at);
      ghost var orig := output[..];
      for i := 0 to m
        invariant Written(orig, at, Encode(input[..3 * i]), output[..])
        invariant |Encode(input[..3 * i])| == 4 * i
      {
        WholeAt(i);
        PutChunk(input, 3 * i, 3 * i + 3, output, at + i * 4, 4, orig, at);
      }
      if |input| % 3 > 0 {
        WholeAt(m);
        PutChunk(input, 3 * m, |input|, output, at + m * 4, outLen - m * 4, orig, at);
      } else {
        assert input[..3 * m] == input;
      }
    }
  }

  lemma WholeAt(i: nat)
    ensures IsWhole(3 * i)
  {
    DivModUnique(3 * i, i, 0, 3);
  }

  /** One recursive call: the chunk input[k..e] goes behind what has been written. */
  method PutChunk(input: seq<byte>, k: nat, e: nat, output: array<byte>, w: nat, room: nat, ghost orig: seq<byte>, ghost at: nat)
    requires IsWhole(k) && k < e <= |input| && e <= k + 3
    requires Written(orig, at, Encode(input[..k]), output[..]) && w == at + |Encode(input[..k])|
    requires Asked(e - k) <= room && w + room <= output.Length && w + 4 <= output.Length
    modifies output
    ensures Written(orig, at, Encode(input[..e]), output[..])
    ensures |Encode(input[..e])| == |Encode(input[..k])| + 4
    ensures e == |input| ==> input[..e] == input
    decreases 1
  {
    hide Encode, Asked, Written, IsWhole;
    ghost var before := output[..];
    WrittenFits(orig, at, Encode(input[..k]), before);
    NextChunk(input, k, e);
    var _ := B64Encode(input[k..e], output, w, room);
    Extend(orig, at, Encode(input[..k]), before, Encode(input[k..e]), output[..]);
  }

  lemma NothingYet(input: seq<byte>, orig: seq<byte>, at: nat)
    requires at <= |orig|
    ensures Encode(input[..0]) == [] && Written(orig, at, Encode(input[..0]), orig)
  {
    assert input[..0] == [];
  }

  /** The arithmetic of the chunks: m whole groups fit, and one more if anything is left. */
  lemma RoomForGroups(n: nat, m: nat)
    requires m == n / 3
    ensures 3 * m <= n < 3 * m + 3 && n % 3 == n - 3 * m
    ensures (n + 2) / 3 * 4 == 4 * ((n + 2) / 3) == if n > 3 * m then 4 * m + 4 else 4 * m
    ensures Asked(n) == 4 * m + (n - 3 * m) && Asked(n - 3 * m) == n - 3 * m && Asked(3) == 4
  {
    AskedSpace(n, m, n % 3);
  }

  lemma WrittenFits(orig: seq<byte>, at: nat, text: seq<byte>, after: seq<byte>)
    requires Written(orig, at, text, after)
    ensures |after| == |orig| && at + |text| <= |orig|
  {}

  /** A whole number of groups. */
  predicate IsWhole(k: nat) { k % 3 == 0 }

  lemma {:induction false} NextChunk(input: seq<byte>, k: nat, e: nat)
    requires IsWhole(k) && k < e <= |input| && e <= k + 3
    ensures Encode(input[..e]) == Encode(input[..k]) + Encode(input[k..e]) && |Encode(input[k..e])| == 4
    ensures e == |input| ==> input[..e] == input
    ensures e == k + 3 ==> IsWhole(e)
  {
    hide Encode;
    var chunk := input[k..e];
    EncodeAppend(input[..k], chunk);
    assert input[..k] + chunk == input[..e];
    EncodeLength(chunk);
    RoomForGroups(|chunk|, |chunk| / 3);
    DivModUnique(e, k / 3 + (e - k) / 3, (e - k) % 3, 3);
  }

  /** The three short forms. */
  method B64Group(input: seq<byte>, output: array<byte>, at: nat)
    requires 1 <= |input| <= 3 && at + 4 <= output.Length
    modifies output
    ensures |Encode(input)| == 4
    ensures Written(old(output[..]), at, Encode(input), output[..])
  {
    hide Encode, EncodeValue, Written;
    EncodeLength(input);
    GroupChars(input);
    ghost var orig := output[..];
    output[at] := EncodeValue(input[0] / 4);
    if |input| == 3 {
      output[at + 1] := EncodeValue(input[0] % 4 * 16 + input[1] / 16);
      output[at + 2] := EncodeValue(input[1] % 16 * 4 + input[2] / 64);
      output[at + 3] := EncodeValue(input[2] % 64);
    } else if |input| == 2 {
      output[at + 1] := EncodeValue(input[0] % 4 * 16 + input[1] / 16);
      output[at + 2] := EncodeValue(input[1] % 16 * 4);
      output[at + 3] := PAD;
    } else {
      output[at + 1] := EncodeValue(input[0] % 4 * 16);
      output[at + 2] := PAD;
      output[at + 3] := PAD;
    }
    FourWritten(orig, at, Encode(input), output[..]);
  }

  lemma FourWritten(orig: seq<byte>, at: nat, text: seq<byte>, after: seq<byte>)
    requires |text| == 4 && at + 4 <= |orig| == |after|
    requires after[at] == text[0] && after[at + 1] == text[1] && after[at + 2] == text[2] && after[at + 3] == text[3]
    requires forall i :: 0 <= i < at || at + 4 <= i < |orig| ==> after[i] == orig[i]
    ensures Written(orig, at, text, after)
  {}

  lemma {:induction false} GroupChars(s: seq<byte>)
    requires 1 <= |s| <= 3
    ensures |Encode(s)| == 4
    ensures Encode(s)[0] == EncodeValue(s[0] / 4)
    ensures Encode(s)[1] == EncodeValue(s[0] % 4 * 16 + ByteAt(s, 1) / 16)
    ensures Encode(s)[2] == if |s| == 1 then PAD else EncodeValue(s[1] % 16 * 4 + ByteAt(s, 2) / 64)
    ensures Encode(s)[3] == if |s| == 3 then EncodeValue(s[2] % 64) else PAD
  {
    hide Quad, EncodeValue, Encode;
    var q := Quad(s[0], ByteAt(s, 1), ByteAt(s, 2));
    QuadShifts(s[0], ByteAt(s, 1), ByteAt(s, 2));
    if |s| == 3 {
      EncodeGroup(s);
      assert s[3..] == [];
      EncodeNothing();
    } else {
      EncodeShort(s, q);
    }
  }

  lemma EncodeNothing()
    ensures Encode([]) == []
  {}

  // ----- Credentials

  const COLON: byte := ':' as int

  const AuthorizationBasic: seq<byte> := Codes("Authorization: Basic ")

  /** `HTTPClient::setAuthorization`; the fields are C strings, None for a null pointer. */
  class HTTPClient {
    var base64Authorization: seq<byte>

    method SetAuthorization(user: Option<seq<byte>>, password: Option<seq<byte>>)
      modifies this
      ensures user.Some? && password.Some? ==> base64Authorization == Encode(user.value + [COLON] + password.value)
      ensures user.None? || password.None? ==> base64Authorization == old(base64Authorization)
    {
      if user.Some? && password.Some? {
        var auth := user.value;
        auth := auth + [COLON];
        auth := auth + password.value;
        base64Authorization := EncodeData(auth);
      }
    }
  }

  /**
   `HttpClient::sendBasicAuth`: everything it prints. The credentials pass through a 3-byte buffer, and
   what comes out of each turn is printed as a C string.
   */
  method SendBasicAuth(user: seq<byte>, password: seq<byte>) returns (sent: seq<byte>)
    ensures sent == AuthorizationBasic + Encode(user + [COLON] + password) + [13, 10]
  {
    sent := AuthorizationBasic;
    var text := PrintCredentials(user, password);
    sent := sent + text;
    sent := sent + [13, 10];
  }

  /** The loop over the bytes of user:password; everything it prints. */
  method PrintCredentials(user: seq<byte>, password: seq<byte>) returns (sent: seq<byte>)
    ensures sent == Encode(user + [COLON] + password)
  {
    hide Encode, Sending;
    sent := [];
    var input, output := new byte[3], new byte[5];
    var inputOffset := 0;
    ghost var whole := user + [COLON] + password;
    var n := |user| + 1 + |password|;
    SendingBegins(whole);
    assert input[..0] == [];
    for i := 0 to n
      invariant inputOffset < 3 && Sending(whole, i, input[..inputOffset], sent)
    {
      SendingTurn(whole, i, input[..inputOffset], sent);
      CollectByte(user, password, i, input, inputOffset);
      inputOffset := inputOffset + 1;
      if inputOffset == 3 || i == |user| + |password| {
        var text := PrintGroup(input[..inputOffset], output);
        sent := sent + text;
        inputOffset := 0;
        assert input[..0] == [];
      }
    }
    SendingEnds(whole, input[..inputOffset], sent);
  }

  /** Of the first i bytes, all but the collected ones have been sent, in whole groups unless it was the last. */
  ghost predicate Sending(whole: seq<byte>, i: nat, collected: seq<byte>, sent: seq<byte>) {
    && |collected| <= i <= |whole|
    && collected == whole[i - |collected|..i] && sent == Encode(whole[..i - |collected|])
    && if i == |whole| then collected == [] else IsWhole(i - |collected|)
  }

  lemma SendingBegins(whole: seq<byte>)
    requires whole != []
    ensures Sending(whole, 0, [], [])
  {
    hide Encode;
    EncodeNothing();
    assert whole[..0] == [] && whole[0..0] == [];
  }

  lemma {:induction false} SendingTurn(whole: seq<byte>, i: nat, collected: seq<byte>, sent: seq<byte>)
    requires Sending(whole, i, collected, sent) && i < |whole| && |collected| < 3
    ensures var now := collected + [whole[i]];
      if |now| == 3 || i + 1 == |whole| then Sending(whole, i + 1, [], sent + Encode(now))
      else Sending(whole, i + 1, now, sent)
  {
    hide Encode, IsWhole;
    var now, done := collected + [whole[i]], i - |collected|;
    assert now == whole[done..i + 1];
    NextChunk(whole, done, i + 1);
  }

  lemma SendingEnds(whole: seq<byte>, collected: seq<byte>, sent: seq<byte>)
    requires Sending(whole, |whole|, collected, sent)
    ensures sent == Encode(whole)
  {
    hide Encode;
    assert whole[..|whole|] == whole;
  }

  /** The start of a turn: the next byte of user:password goes to the 3-byte buffer. */
  method CollectByte(user: seq<byte>, password: seq<byte>, i: nat, input: array<byte>, inputOffset: nat)
    requires i < |user| + 1 + |password| && inputOffset < input.Length
    modifies input
    ensures input[..inputOffset + 1] == old(input[..inputOffset]) + [(user + [COLON] + password)[i]]
  {
    if i < |user| {
      input[inputOffset] := user[i];
    } else if i == |user| {
      input[inputOffset] := COLON;
    } else {
      input[inputOffset] := password[i - (|user| + 1)];
    }
  }

  /** The end of a turn: encode what has been collected, terminate it, and print it as a C string. */
  method PrintGroup(input: seq<byte>, output: array<byte>) returns (text: seq<byte>)
    requires 1 <= |input| <= 3 && output.Length == 5
    modifies output
    ensures text == Encode(input)
  {
    hide Encode;
    EncodeLength(input);
    EncodeHasNoNul(input);
    CStringWhole(Encode(input));
    var _ := B64Encode(input, output, 0, 4);
    output[4] := 0;
    assert output[..] == Encode(input) + [0];
    text := CString(output[..]);
  }
}
