/**
 WebSocket framing: assembling and masking an outgoing message, reading a frame header, and taking the
 mask off a payload that is read in pieces (RFC 6455, sections 5.2 and 5.3).
 The connection is the bytes sent so far and the bytes that have arrived and are still unread.
 */
module WebSocket {
  import opened Common
  import opened Arith
  import opened Bits

  // ----- Masks

  /** The bytes joined with the key, starting at key position `from`. Masking and unmasking are the same. */
  function Masked(data: seq<byte>, key: seq<byte>, from: nat): (r: seq<byte>)
    requires |key| == 4
    ensures |r| == |data|
  {
    seq(|data|, i requires 0 <= i < |data| => XorByte(data[i], key[(from + i) % 4]))
  }

  /** What arrived bytes mean, when they may be masked. */
  function Plain(data: seq<byte>, masked: bool, key: seq<byte>, from: nat): (r: seq<byte>)
    requires |key| == 4
    ensures |r| == |data|
  {
    if masked then Masked(data, key, from) else data
  }

  lemma MaskTwice(data: seq<byte>, key: seq<byte>, from: nat)
    requires |key| == 4
    ensures Masked(Masked(data, key, from), key, from) == data
  {
    hide BitXor;
    forall i | 0 <= i < |data| ensures Masked(Masked(data, key, from), key, from)[i] == data[i] {
      XorTwice(data[i], key[(from + i) % 4]);
    }
  }

  lemma MaskAppend(a: seq<byte>, b: seq<byte>, key: seq<byte>, from: nat)
    requires |key| == 4
    ensures Masked(a + b, key, from) == Masked(a, key, from) + Masked(b, key, from + |a|)
  {
    hide XorByte;
    var whole := a + b;
    forall i | 0 <= i < |whole|
      ensures Masked(whole, key, from)[i] == (Masked(a, key, from) + Masked(b, key, from + |a|))[i]
    {
      if i >= |a| { assert from + i == from + |a| + (i - |a|); }
    }
  }

  /** Each piece unmasked where the piece before it ended. */
  function UnmaskPieces(pieces: seq<seq<byte>>, key: seq<byte>, from: nat): seq<byte>
    requires |key| == 4
  {
    if pieces == [] then []
    else Masked(pieces[0], key, from) + UnmaskPieces(pieces[1..], key, from + |pieces[0]|)
  }

  lemma {:induction false} PiecesUnmask(pieces: seq<seq<byte>>, key: seq<byte>, from: nat)
    requires |key| == 4
    ensures UnmaskPieces(pieces, key, from) == Masked(Joined(pieces), key, from)
  {
    hide Masked;
    if pieces == [] {
      MaskNothing(key, from);
    } else {
      PiecesUnmask(pieces[1..], key, from + |pieces[0]|);
      MaskAppend(pieces[0], Joined(pieces[1..]), key, from);
    }
  }

  lemma MaskNothing(key: seq<byte>, from: nat)
    requires |key| == 4
    ensures Masked([], key, from) == []
  {}

  /** However a masked payload is cut up, reading the pieces in turn gives the original. */
  lemma AnyCutUnmasks(payload: seq<byte>, key: seq<byte>, pieces: seq<seq<byte>>)
    requires |key| == 4 && Joined(pieces) == Masked(payload, key, 0)
    ensures UnmaskPieces(pieces, key, 0) == payload
  {
    PiecesUnmask(pieces, key, 0);
    MaskTwice(payload, key, 0);
  }

  /** Two key positions unmask the same. */
  predicate SameMask(data: seq<byte>, key: seq<byte>, a: nat, b: nat)
    requires |key| == 4
  {
    Masked(data, key, a) == Masked(data, key, b)
  }

  /**
   A read that asked for `size` bytes and got `got` moves the key position by `size`. Whatever is read
   next is right for every key exactly when the difference is a multiple of four.
   */
  lemma ShortReadKeepsStep(from: nat, got: nat, size: nat, next: nat, right: nat)
    requires got <= size && next == from + size && right == from + got
    ensures (size - got) % 4 == 0 <==>
      forall data: seq<byte>, key: seq<byte> | |key| == 4 :: SameMask(data, key, next, right)
  {
    hide BitXor;
    var d := size - got;
    if d % 4 == 0 {
      forall data: seq<byte>, key: seq<byte> | |key| == 4 ensures SameMask(data, key, next, right) {
        forall i | 0 <= i < |data| ensures Masked(data, key, next)[i] == Masked(data, key, right)[i] {
          SameStep(right + i, d);
          assert next + i == right + i + d;
        }
      }
    } else {
      var key := seq(4, i => if i == next % 4 then 1 else 0);
      OtherStep(right, d);
      XorZero(0);
      XorZero(1);
      assert Masked([0], key, next)[0] == XorByte(0, 1) == 1;
      assert Masked([0], key, right)[0] == XorByte(0, 0) == 0;
      assert !SameMask([0], key, next, right);
    }
  }

  lemma SameStep(x: nat, d: nat)
    requires d % 4 == 0
    ensures (x + d) % 4 == x % 4
  {
    DivModUnique(x + d, x / 4 + d / 4, x % 4, 4);
  }

  lemma OtherStep(x: nat, d: nat)
    requires d % 4 != 0
    ensures (x + d) % 4 != x % 4
  {
    var r := x % 4 + d % 4;
    if r < 4 {
      DivModUnique(x + d, x / 4 + d / 4, r, 4);
    } else {
      DivModUnique(x + d, x / 4 + d / 4 + 1, r - 4, 4);
    }
  }

  // ----- Frames

  const TYPE_CONNECTION_CLOSE: byte := 0x8
  const TYPE_PING: byte := 0x9
  const TYPE_PONG: byte := 0xa

  const Size64: nat := 0x1_0000_0000_0000_0000

  /** The byte of n that counts units of the given size. */
  function ByteOf(n: nat, unit: nat): byte
    requires unit > 0
  {
    n / unit % 0x100
  }

  function Quot(n: nat, unit: nat): int
    requires unit > 0
  {
    n / unit
  }

  /** The length of a masked frame, in one of three forms. */
  function LengthBytes(n: nat): seq<byte> {
    if n < 126 then [0x80 + n]
    else if n < 0xffff then [0x80 + 126, ByteOf(n, 0x100), ByteOf(n, 1)]
    else [0x80 + 127] + LongBytes(n)
  }

  function FrameHeader(opcode: byte, key: seq<byte>, n: nat): seq<byte>
    requires opcode < 16
  {
    [0x80 + opcode] + LengthBytes(n) + key
  }

  /** A final frame with the given opcode, masked with the key. */
  function Frame(opcode: byte, key: seq<byte>, payload: seq<byte>): seq<byte>
    requires opcode < 16 && |key| == 4
  {
    FrameHeader(opcode, key, |payload|) + Masked(payload, key, 0)
  }

  datatype Header = Header(opcode: byte, masked: bool, key: seq<byte>, size: nat, length: nat)

  function Widen(hi: int, lo: byte): int { hi * 0x100 + lo }

  function Word64(s: seq<byte>): nat
    requires |s| == 8
  {
    Widen(Widen(Widen(Widen(Widen(Widen(Widen(s[0], s[1]), s[2]), s[3]), s[4]), s[5]), s[6]), s[7])
  }

  /** The bytes that follow the first two when they announce a longer length. */
  function ExtraBytes(length7: byte): nat {
    if length7 < 126 then 0 else if length7 == 126 then 2 else 8
  }

  /** The header at the front of s, once all of it has arrived. */
  function ParseHeader(s: seq<byte>): Option<Header> {
    if |s| < 2 then None
    else
      var masked, length7 := s[1] >= 0x80, s[1] % 0x80;
      var extra := ExtraBytes(length7);
      var length := 2 + extra + if masked then 4 else 0;
      if |s| < length then None
      else
        var size := if length7 < 126 then length7 else if length7 == 126 then Widen(s[2], s[3]) else Word64(s[2..10]);
        Some(Header(s[0], masked, if masked then s[2 + extra..length] else [], size, length))
  }

  lemma {:induction false} Shift(n: nat, d: nat, up: nat)
    requires d > 0 && up == 0x100 * d
    ensures Quot(n, d) == Widen(Quot(n, up), ByteOf(n, d))
  {
    var m := n / d;
    DivFacts(n, d);
    DivFacts(m, 0x100);
    ShiftTwice(n, d, m, n % d, m / 0x100, m % 0x100);
  }

  lemma {:induction false} ShiftTwice(n: nat, d: nat, m: nat, low: nat, q: nat, r: nat)
    requires d > 0 && n == d * m + low && low < d && m == 0x100 * q + r && r < 0x100
    ensures n / (0x100 * d) == q
  {
    assert d * m == (0x100 * d) * q + d * r;
    MulMono(d, r, 0xff);
    DivModUnique(n, q, d * r + low, 0x100 * d);
  }

  lemma {:induction false} LengthRoundTrip(n: nat)
    requires n < Size64
    ensures var b := LengthBytes(n);
      && b[0] >= 0x80 && |b| == 1 + ExtraBytes(b[0] % 0x80)
      && (b[0] % 0x80 < 126 ==> b[0] % 0x80 == n)
      && (b[0] % 0x80 == 126 ==> Widen(b[1], b[2]) == n)
      && (b[0] % 0x80 == 127 ==> Word64(b[1..]) == n)
  {
    if n >= 0xffff {
      LongForm(n, LengthBytes(n));
    }
  }

  lemma {:induction false} LongForm(n: nat, b: seq<byte>)
    requires n < Size64 && b == [0x80 + 127] + LongBytes(n)
    ensures |b| == 9 && b[0] == 0x80 + 127 && Word64(b[1..]) == n
  {
    hide Widen, Quot, ByteOf;
    TopByte(n);
    Shift(n, 0x1_0000_0000_0000, 0x100_0000_0000_0000);
    Shift(n, 0x100_0000_0000, 0x1_0000_0000_0000);
    Shift(n, 0x1_0000_0000, 0x100_0000_0000);
    Shift(n, 0x100_0000, 0x1_0000_0000);
    Shift(n, 0x1_0000, 0x100_0000);
    Shift(n, 0x100, 0x1_0000);
    Shift(n, 1, 0x100);
    Chain(b, Quot(n, 0x100_0000_0000_0000), Quot(n, 0x1_0000_0000_0000), Quot(n, 0x100_0000_0000), Quot(n, 0x1_0000_0000),
          Quot(n, 0x100_0000), Quot(n, 0x1_0000), Quot(n, 0x100), Quot(n, 1));
  }

  lemma Chain(b: seq<byte>, q0: int, q1: int, q2: int, q3: int, q4: int, q5: int, q6: int, q7: int)
    requires |b| == 9 && q0 == b[1] && q1 == Widen(q0, b[2]) && q2 == Widen(q1, b[3]) && q3 == Widen(q2, b[4])
    requires q4 == Widen(q3, b[5]) && q5 == Widen(q4, b[6]) && q6 == Widen(q5, b[7]) && q7 == Widen(q6, b[8])
    ensures Word64(b[1..]) == q7
  {
    hide Widen;
  }

  lemma TopByte(n: nat)
    requires n < Size64
    ensures ByteOf(n, 0x100_0000_0000_0000) == Quot(n, 0x100_0000_0000_0000) && Quot(n, 1) == n
  {}

  /** The header of a frame is read back, whatever follows it. */
  lemma HeaderRoundTrip(opcode: byte, key: seq<byte>, n: nat, rest: seq<byte>)
    requires opcode < 16 && |key| == 4 && n < Size64
    ensures var h := FrameHeader(opcode, key, n);
      ParseHeader(h + rest) == Some(Header(0x80 + opcode, true, key, n, |h|))
  {
    hide LengthBytes, Word64, Widen, FrameHeader, ParseHeader;
    var b, h := LengthBytes(n), FrameHeader(opcode, key, n);
    FrameHeaderParts(opcode, key, n);
    LengthRoundTrip(n);
    HeaderSlices([0x80 + opcode], b, key, rest, h + rest);
    MaskedHeader(h + rest, |b| - 1, n);
  }

  lemma FrameHeaderParts(opcode: byte, key: seq<byte>, n: nat)
    requires opcode < 16
    ensures FrameHeader(opcode, key, n) == [0x80 + opcode] + LengthBytes(n) + key
  {
    hide LengthBytes;
  }

  lemma MaskedHeader(s: seq<byte>, e: nat, n: nat)
    requires |s| >= 6 + e && s[1] >= 0x80 && e == ExtraBytes(s[1] % 0x80)
    requires if e == 0 then n == s[1] % 0x80 else if e == 2 then n == Widen(s[2], s[3]) else n == Word64(s[2..10])
    ensures ParseHeader(s) == Some(Header(s[0], true, s[2 + e..6 + e], n, 6 + e))
  {
    hide Word64, Widen;
  }

  lemma HeaderSlices(a: seq<byte>, b: seq<byte>, key: seq<byte>, rest: seq<byte>, s: seq<byte>)
    requires |a| == 1 && |b| >= 1 && |key| == 4 && s == (a + b + key) + rest
    ensures |s| >= 1 + |b| + 4 && s[0] == a[0] && s[1] == b[0]
    ensures |b| > 2 ==> s[2] == b[1] && s[3] == b[2]
    ensures s[2..1 + |b|] == b[1..]
    ensures s[1 + |b|..5 + |b|] == key
  {}

  /** A frame carries its message: the header says how to get the payload back, and of which type it is. */
  lemma {:induction false} FrameDelivers(opcode: byte, key: seq<byte>, payload: seq<byte>, rest: seq<byte>)
    requires opcode < 16 && |key| == 4 && |payload| < Size64
    ensures var s := Frame(opcode, key, payload) + rest;
      && ParseHeader(s).Some?
      && var h := ParseHeader(s).value;
      && h.opcode == 0x80 + opcode && h.masked && h.key == key && h.size == |payload|
      && Complete(s) && FramePayload(s) == payload && BehindFrame(s) == rest
    ensures var op: byte := 0x80 + opcode;
      forall before: byte :: NewOpCode(before, op) % 16 == if opcode == 0 then before % 16 else opcode
  {
    hide NewOpCode, FrameHeader, Masked, ParseHeader;
    TypesOfFrame(opcode, 0x80 + opcode);
    var h := FrameHeader(opcode, key, |payload|);
    var body := Masked(payload, key, 0);
    HeaderRoundTrip(opcode, key, |payload|, body + rest);
    MaskTwice(payload, key, 0);
    Assoc(h, body, rest);
    FrameSlices(h, body, rest);
    var s := Frame(opcode, key, payload) + rest;
    assert s == h + (body + rest);
    assert s[|h|..][..|body|] == body && s[|h|..][|body|..] == rest;
    assert ParseHeader(s) == Some(Header(0x80 + opcode, true, key, |body|, |h|));
  }

  lemma FrameSlices(h: seq<byte>, body: seq<byte>, rest: seq<byte>)
    ensures var s := h + (body + rest);
      s[|h|..|h| + |body|] == body && s[|h| + |body|..] == rest
  {}

  /**
   What is sent for a ping while a message of type t is being assembled is the pong that answers it
   exactly when that message is itself a pong and has no bytes yet.
   */
  lemma {:induction false} PongIsRightExactly(t: byte, key: seq<byte>, buffered: seq<byte>, payload: seq<byte>)
    requires t < 16 && |key| == 4 && |buffered| + |payload| < Size64
    ensures Frame(t, key, buffered + payload) == Frame(TYPE_PONG, key, payload) <==> t == TYPE_PONG && buffered == []
  {
    hide FrameHeader, Masked, ParseHeader;
    HeaderRoundTrip(t, key, |buffered + payload|, Masked(buffered + payload, key, 0));
    HeaderRoundTrip(TYPE_PONG, key, |payload|, Masked(payload, key, 0));
    assert buffered == [] ==> buffered + payload == payload;
  }

  lemma TypesOfFrame(opcode: byte, op: byte)
    requires opcode < 16 && op == 0x80 + opcode
    ensures forall before: byte :: NewOpCode(before, op) % 16 == if opcode == 0 then before % 16 else opcode
  {
    forall before: byte {
      TypeOfFrame(before, opcode);
    }
  }

  lemma {:induction false} TypeOfFrame(before: byte, opcode: byte)
    requires opcode < 16
    ensures NewOpCode(before, 0x80 + opcode) % 16 == if opcode == 0 then before % 16 else opcode
  {
    hide BitOr, Pow;
    PowEight();
    OrKeepsLow(before, 0x80, 4);
  }

  /** The parts of a header as they are taken one after the other; t is what follows the first two bytes. */
  lemma HeaderParts(s: seq<byte>, t: seq<byte>)
    requires ParseHeader(s).Some? && |s| >= 2 && t == s[1..][1..]
    ensures var h, n := ParseHeader(s).value, s[1] % 0x80;
      var e := ExtraBytes(n);
      && h.opcode == s[0] && h.masked == (s[1] >= 0x80)
      && h.length == 2 + e + (if h.masked then 4 else 0) <= |s| && |t| == |s| - 2
      && h.size == (if n < 126 then n else if n == 126 then Widen(t[0], t[1]) else Word64(t[..8]))
      && s[h.length..] == (if h.masked then t[e..][4..] else t[e..])
      && (h.masked ==> h.key == t[e..][..4])
      && t[0..] == t
  {
    hide Widen, Word64;
    DropDrop(s, 1, 1);
    var e := ExtraBytes(s[1] % 0x80);
    DropDrop(s, 2, e);
    if s[1] >= 0x80 { DropDrop(s, 2 + e, 4); }
  }

  lemma TwoAtLeast(s: seq<byte>)
    requires ParseHeader(s).Some?
    ensures |s| >= 2
  {}

  lemma NewOpCodeIs(before: byte, opcode: byte)
    ensures NewOpCode(before, opcode) == if opcode % 16 == 0 then OrByte(before, opcode) else opcode
  {}

  /** The examples of section 5.7 of RFC 6455: a masked text "Hello", a ping and its pong. */
  lemma {:induction false} PublishedFrames(rest: seq<byte>, before: byte)
    ensures var key, hello := [0x37, 0xfa, 0x21, 0x3d], Codes("Hello");
      && Frame(1, key, hello) == [0x81, 0x85, 0x37, 0xfa, 0x21, 0x3d, 0x7f, 0x9f, 0x4d, 0x51, 0x58]
      && Frame(TYPE_PONG, key, hello) == [0x8a, 0x85, 0x37, 0xfa, 0x21, 0x3d, 0x7f, 0x9f, 0x4d, 0x51, 0x58]
    ensures var ping := [0x89, 5] + (Codes("Hello") + rest);
      && ParseHeader(ping) == Some(Header(0x89, false, [], 5, 2)) && FramePayload(ping) == Codes("Hello")
      && MessageType(ping, before) == TYPE_PING && IsControl(TYPE_PING)
    ensures MessageType([0x88, 0] + rest, before) == TYPE_CONNECTION_CLOSE && IsControl(TYPE_CONNECTION_CLOSE)
    ensures MessageType([0x8a, 0] + rest, before) == TYPE_PONG && IsControl(TYPE_PONG)
    ensures !IsControl(0) && !IsControl(1) && !IsControl(2)
  {
    hide Masked, Frame, ParseHeader, Codes;
    HelloFrame(1);
    HelloFrame(TYPE_PONG);
    ServerHeader(9, 5, 0, 0, Codes("Hello") + rest);
    assert ([0x89, 5] + (Codes("Hello") + rest))[2..] == Codes("Hello") + rest;
    assert (Codes("Hello") + rest)[..5] == Codes("Hello");
  }

  lemma HelloFrame(opcode: byte)
    requires opcode < 16
    ensures Frame(opcode, [0x37, 0xfa, 0x21, 0x3d], Codes("Hello"))
      == [0x80 + opcode, 0x85, 0x37, 0xfa, 0x21, 0x3d, 0x7f, 0x9f, 0x4d, 0x51, 0x58]
  {
    hide Masked, Codes;
    MaskedHello();
  }

  lemma MaskedHello()
    ensures Masked(Codes("Hello"), [0x37, 0xfa, 0x21, 0x3d], 0) == [0x7f, 0x9f, 0x4d, 0x51, 0x58]
  {
    hide BitXor;
    XorsOfHello();
    assert Codes("Hello") == [0x48, 0x65, 0x6c, 0x6c, 0x6f];
  }

  /**
   The header of a final frame from a server, which does not mask: a length below 126 in the second byte,
   or 126 and 16 bits, or 127 and 64 bits, as soon as its bytes are there.
   */
  lemma ServerHeader(opcode: byte, n: nat, hi: byte, lo: byte, rest: seq<byte>)
    requires opcode < 16
    ensures n < 126 ==> ParseHeader([0x80 + opcode, n] + rest) == Some(Header(0x80 + opcode, false, [], n, 2))
    ensures ParseHeader([0x80 + opcode, 126, hi, lo] + rest) == Some(Header(0x80 + opcode, false, [], (hi as int) * 0x100 + lo as int, 4))
    ensures n < Size64 ==>
      ParseHeader([0x80 + opcode, 127] + LongBytes(n) + rest) == Some(Header(0x80 + opcode, false, [], n, 10))
  {
    hide ParseHeader, LongBytes;
    if n < 126 { ShortHeader(0x80 + opcode, n, [0x80 + opcode, n] + rest); }
    MiddleHeader(0x80 + opcode, [0x80 + opcode, 126, hi, lo] + rest);
    if n < Size64 { LongHeader(opcode, n, rest); }
  }

  lemma ShortHeader(b: byte, n: nat, s: seq<byte>)
    requires n < 126 && |s| >= 2 && s[0] == b && s[1] == n
    ensures ParseHeader(s) == Some(Header(b, false, [], n, 2))
  {
    hide Word64, Widen;
  }

  lemma MiddleHeader(b: byte, s: seq<byte>)
    requires |s| >= 4 && s[0] == b && s[1] == 126
    ensures ParseHeader(s) == Some(Header(b, false, [], (s[2] as int) * 0x100 + s[3] as int, 4))
  {
    hide Word64;
  }

  /** The 64 bits of a length, highest first. */
  function LongBytes(n: nat): (b: seq<byte>)
    ensures |b| == 8
  {
    [ByteOf(n, 0x100_0000_0000_0000), ByteOf(n, 0x1_0000_0000_0000), ByteOf(n, 0x100_0000_0000), ByteOf(n, 0x1_0000_0000),
     ByteOf(n, 0x100_0000), ByteOf(n, 0x1_0000), ByteOf(n, 0x100), ByteOf(n, 1)]
  }

  lemma LongHeader(opcode: byte, n: nat, rest: seq<byte>)
    requires opcode < 16 && n < Size64
    ensures ParseHeader([0x80 + opcode, 127] + LongBytes(n) + rest) == Some(Header(0x80 + opcode, false, [], n, 10))
  {
    hide Word64, LongBytes, Widen;
    var s := [0x80 + opcode, 127] + LongBytes(n) + rest;
    LongIsRead(n);
    assert s[2..10] == LongBytes(n);
  }

  lemma LongIsRead(n: nat)
    requires n < Size64
    ensures Word64(LongBytes(n)) == n
  {
    hide Word64, ByteOf, Quot, Widen;
    var b := [0x80 + 127] + LongBytes(n);
    LongForm(n, b);
    assert b[1..] == LongBytes(n);
  }

  lemma XorsOfHello()
    ensures BitXor(0x48, 0x37) == 0x7f && BitXor(0x65, 0xfa) == 0x9f && BitXor(0x6c, 0x21) == 0x4d
    ensures BitXor(0x6c, 0x3d) == 0x51 && BitXor(0x6f, 0x37) == 0x58
  {
    hide BitXor;
    NibbleXors();
    XorNibbles(0x48, 0x37, 0x7f);
    XorNibbles(0x65, 0xfa, 0x9f);
    XorNibbles(0x6c, 0x21, 0x4d);
    XorNibbles(0x6c, 0x3d, 0x51);
    XorNibbles(0x6f, 0x37, 0x58);
  }

  /** Exclusive-or nibble by nibble. */
  lemma {:induction false} XorNibbles(a: byte, b: byte, c: byte)
    requires BitXor(a / 16, b / 16) == c / 16 && BitXor(a % 16, b % 16) == c % 16
    ensures BitXor(a, b) == c
  {
    hide BitXor;
    assert Pow(2, 4) == 16;
    XorSplit(a / 16, a % 16, b / 16, b % 16, 4);
  }

  lemma NibbleXors()
    ensures BitXor(0x4, 0x3) == 0x7
    ensures BitXor(0x5, 0xa) == 0xf
    ensures BitXor(0x6, 0x2) == 0x4
    ensures BitXor(0x6, 0x3) == 0x5
    ensures BitXor(0x6, 0xf) == 0x9
    ensures BitXor(0x8, 0x7) == 0xf
    ensures BitXor(0xc, 0x1) == 0xd
    ensures BitXor(0xc, 0xd) == 0x1
    ensures BitXor(0xf, 0x7) == 0x8
  {
    assert BitXor(1, 0) == 1;
    assert BitXor(1, 2) == 3;
    assert BitXor(1, 3) == 2;
    assert BitXor(2, 1) == 3;
    assert BitXor(3, 0) == 3;
    assert BitXor(3, 1) == 2;
    assert BitXor(3, 3) == 0;
  }

  predicate IsControl(mt: byte) {
    mt == TYPE_CONNECTION_CLOSE || mt == TYPE_PING || mt == TYPE_PONG
  }

  /** A continuation keeps the opcode before it and adds its own flags. */
  function NewOpCode(before: byte, opcode: byte): byte {
    if opcode % 16 == 0 then OrByte(before, opcode) else opcode
  }

  /** The type that a frame is taken for, given the opcode of the frame before it. */
  function MessageType(s: seq<byte>, before: byte): byte
    requires s != []
  {
    NewOpCode(before, s[0]) % 16
  }

  /** The header is complete, and so is the frame if it is a control frame. */
  predicate Arrived(s: seq<byte>, before: byte)
    requires |s| >= 2
  {
    && ParseHeader(s).Some?
    && (IsControl(MessageType(s, before)) ==> Complete(s))
  }

  /** The whole frame is there. */
  predicate Complete(s: seq<byte>) {
    ParseHeader(s).Some? && var h := ParseHeader(s).value; h.length + h.size <= |s|
  }

  function BehindHeader(s: seq<byte>): seq<byte>
    requires ParseHeader(s).Some?
  {
    s[ParseHeader(s).value.length..]
  }

  function BehindFrame(s: seq<byte>): seq<byte>
    requires Complete(s)
  {
    BehindHeader(s)[ParseHeader(s).value.size..]
  }

  function FramePayload(s: seq<byte>): seq<byte>
    requires Complete(s)
  {
    Payload(ParseHeader(s).value, BehindHeader(s))
  }

  /** The message that a frame carries, `rest` being what follows its header. */
  function Payload(h: Header, rest: seq<byte>): seq<byte>
    requires h.size <= |rest| && (h.masked ==> |h.key| == 4)
  {
    if h.masked then Masked(rest[..h.size], h.key, 0) else rest[..h.size]
  }

  /** The shortest form that can hold n. */
  function ShortestForm(n: nat): nat {
    if n < 126 then 1 else if n < 0x1_0000 then 3 else 9
  }

  /** The form is the shortest possible, as section 5.2 demands, exactly for lengths other than 65535. */
  lemma ShortestExceptOnce(n: nat)
    ensures |LengthBytes(n)| == ShortestForm(n) <==> n != 0xffff
  {}

  /** Subtraction of unsigned 64-bit numbers. */
  function Minus64(a: nat, b: nat): nat { (a - b) % Size64 }

  // ----- The client

  class WebSocketClient {
    const txBuffer: array<byte>
    var txStarted: bool
    var txMessageType: byte
    var txSize: nat
    var rxOpCode: byte
    var rxSize: nat
    var rxMasked: bool
    var rxMaskIndex: nat
    var rxMaskKey: seq<byte>
    /** Whether the connection has been upgraded; `stop` undoes it. */
    var upgraded: bool
    var sent: seq<byte>
    var arrived: seq<byte>

    ghost predicate Valid()
      reads this
    {
      txSize <= txBuffer.Length < 0x8000_0000 && txMessageType < 16 && |rxMaskKey| == 4
    }

    /** What has been written to the message being assembled. */
    ghost function Buffered(): seq<byte>
      reads this, txBuffer
      requires Valid()
    {
      txBuffer[..txSize]
    }

    /** What reading the rest of the current message will give. */
    ghost function Unread(): seq<byte>
      reads this
      requires Valid() && rxSize <= |arrived|
    {
      Plain(arrived[..rxSize], rxMasked, rxMaskKey, rxMaskIndex)
    }

    constructor (capacity: nat)
      requires capacity < 0x8000_0000
      ensures Valid() && !txStarted && rxSize == 0 && !upgraded && sent == [] && arrived == []
      ensures txBuffer.Length == capacity && fresh(txBuffer)
    {
      txBuffer := new byte[capacity];
      txStarted, txMessageType, txSize := false, 0, 0;
      rxOpCode, rxSize, rxMasked, rxMaskIndex, rxMaskKey := 0, 0, false, 0, [0, 0, 0, 0];
      upgraded, sent, arrived := false, [], [];
    }

    method BeginMessage(aType: nat) returns (r: int)
      requires Valid()
      modifies `txStarted, `txMessageType, `txSize
      ensures Valid() && txStarted
      ensures old(txStarted) ==> r == 1 && txMessageType == old(txMessageType) && txSize == old(txSize)
      ensures !old(txStarted) ==> r == 0 && txMessageType == aType % 16 && txSize == 0
    {
      if txStarted { return 1; }
      txStarted := true;
      txMessageType := aType % 16;
      txSize := 0;
      return 0;
    }

    /**
     A write that does not fit is cut to eight bytes in all; it must not begin behind the eighth.
     */
    method Write(data: seq<byte>) returns (n: nat)
      requires Valid()
      requires upgraded && txStarted ==> txSize + |data| <= txBuffer.Length || txSize <= 8 <= txBuffer.Length
      modifies `txSize, `sent, txBuffer
      ensures Valid()
      ensures !upgraded ==> n == |data| && sent == old(sent) + data && txSize == old(txSize) && txBuffer[..] == old(txBuffer[..])
      ensures upgraded ==> sent == old(sent) && n <= |data|
      ensures upgraded && !txStarted ==> n == 0 && txSize == old(txSize) && txBuffer[..] == old(txBuffer[..])
      ensures upgraded && txStarted ==> Buffered() == old(Buffered()) + data[..n]
      ensures upgraded && txStarted ==> n == if old(txSize) + |data| <= txBuffer.Length then |data| else 8 - old(txSize)
    {
      if !upgraded {
        sent := sent + data;
        return |data|;
      }
      if !txStarted { return 0; }
      var aSize := |data|;
      if txSize + aSize > txBuffer.Length {
        aSize := 8 - txSize;
      }
      forall i | 0 <= i < aSize {
        txBuffer[txSize + i] := data[i];
      }
      assert txBuffer[..txSize + aSize] == old(txBuffer[..txSize]) + data[..aSize];
      txSize := txSize + aSize;
      return aSize;
    }

    /** Masks the message in place and sends it as one final frame. The key is four random bytes. */
    method EndMessage(key: seq<byte>) returns (r: int)
      requires Valid() && |key| == 4
      modifies `txStarted, `txSize, `sent, txBuffer
      ensures Valid() && !txStarted
      ensures !old(txStarted) ==> r == 1 && sent == old(sent) && txSize == old(txSize)
      ensures old(txStarted) ==> r == 0 && txSize == 0 && sent == old(sent) + Frame(txMessageType, key, old(Buffered()))
    {
      hide LengthBytes, Masked;
      if !txStarted { return 1; }
      ghost var was, opcode := sent, txMessageType;
      sent := sent + [0x80 + txMessageType];
      SendLength();
      sent := sent + key;
      MaskBuffer(key);
      var size := txSize;
      txStarted := false;
      txSize := 0;
      sent := sent + txBuffer[..size];
      FrameInParts(was, opcode, key, old(Buffered()));
      return 0;
    }

    method SendLength()
      modifies `sent
      ensures sent == old(sent) + LengthBytes(txSize)
    {
      if txSize < 126 {
        sent := sent + [0x80 + txSize];
      } else if txSize < 0xffff {
        sent := sent + [0x80 + 126, ByteOf(txSize, 0x100), ByteOf(txSize, 1)];
      } else {
        sent := sent + [0x80 + 127,
                        ByteOf(txSize, 0x100_0000_0000_0000), ByteOf(txSize, 0x1_0000_0000_0000),
                        ByteOf(txSize, 0x100_0000_0000), ByteOf(txSize, 0x1_0000_0000),
                        ByteOf(txSize, 0x100_0000), ByteOf(txSize, 0x1_0000), ByteOf(txSize, 0x100), ByteOf(txSize, 1)];
      }
    }

    /** The masking loop of `endMessage`. */
    method MaskBuffer(key: seq<byte>)
      requires Valid() && |key| == 4
      modifies txBuffer
      ensures txBuffer[..txSize] == Masked(old(Buffered()), key, 0)
    {
      hide XorByte;
      for i := 0 to txSize
        invariant forall j :: 0 <= j < i ==> txBuffer[j] == XorByte(old(txBuffer[j]), key[(0 + j) % 4])
        invariant forall j :: i <= j < txSize ==> txBuffer[j] == old(txBuffer[j])
      {
        txBuffer[i] := XorByte(txBuffer[i], key[i % 4]);
      }
    }

    function Available(): nat
      reads this
    {
      if upgraded then rxSize else |arrived|
    }

    /**
     Reads into a buffer. The connection delivers `got` bytes, which may be fewer than asked for.
     The mask is taken off all `size` places, and the key position moves by `size`.
     */
    method ReadInto(buffer: array<byte>, size: nat, got: nat) returns (count: nat)
      requires Valid() && size <= buffer.Length && got <= size && got <= |arrived| && buffer != txBuffer
      modifies `rxSize, `rxMaskIndex, `arrived, buffer
      ensures Valid() && count == got
      ensures arrived == old(arrived[got..])
      ensures got == 0 ==> rxSize == old(rxSize) && rxMaskIndex == old(rxMaskIndex)
      ensures got > 0 ==>
        && rxSize == Minus64(old(rxSize), got)
        && rxMaskIndex == old(rxMaskIndex) + if rxMasked then size else 0
      ensures buffer[..got] == Plain(old(arrived[..got]), rxMasked, rxMaskKey, old(rxMaskIndex))
      ensures buffer[size..] == old(buffer[size..])
      // fully satisfied within the message: exactly the next bytes of the message
      ensures got == size <= old(rxSize) <= |old(arrived)| && old(rxSize) < Size64 ==>
        && rxSize == old(rxSize) - size
        && buffer[..size] == old(Unread())[..size]
        && Unread() == old(Unread())[size..]
    {
      hide Masked, Minus64, Plain;
      ghost var from, n := rxMaskIndex, rxSize;
      ghost var raw := Receive(buffer, got);
      assert buffer[size..] == old(buffer[size..]);
      count := got;
      PlainIs(raw, rxMasked, rxMaskKey, from);
      if got > 0 {
        rxSize := Minus64(rxSize, got);
        if rxMasked {
          UnmaskInPlace(buffer, size, got);
        }
      }
      if got == size <= n <= |old(arrived)| && n < Size64 {
        NextOfMessage(old(arrived), n, rxMasked, rxMaskKey, from, got);
      }
    }

    /** The base class's read: `got` bytes come into the buffer. */
    method Receive(buffer: array<byte>, got: nat) returns (ghost raw: seq<byte>)
      requires got <= buffer.Length && got <= |arrived|
      modifies `arrived, buffer
      ensures raw == old(arrived[..got]) && arrived == old(arrived[got..])
      ensures buffer[..got] == raw
      ensures forall i :: got <= i < buffer.Length ==> buffer[i] == old(buffer[i])
    {
      raw := arrived[..got];
      forall i | 0 <= i < got {
        buffer[i] := arrived[i];
      }
      arrived := arrived[got..];
      assert buffer[..got] == raw;
    }

    /** The unmasking loop of `read`. */
    method UnmaskInPlace(buffer: array<byte>, size: nat, ghost got: nat)
      requires Valid() && got <= size <= buffer.Length
      modifies `rxMaskIndex, buffer
      ensures rxMaskIndex == old(rxMaskIndex) + size
      ensures buffer[..got] == Masked(old(buffer[..got]), rxMaskKey, old(rxMaskIndex))
      ensures buffer[size..] == old(buffer[size..])
    {
      hide XorByte;
      ghost var from := rxMaskIndex;
      for i := 0 to size
        invariant rxMaskIndex == from + i
        invariant forall j :: 0 <= j < i ==> buffer[j] == XorByte(old(buffer[j]), rxMaskKey[(from + j) % 4])
        invariant forall j :: i <= j < buffer.Length ==> buffer[j] == old(buffer[j])
      {
        buffer[i] := XorByte(buffer[i], rxMaskKey[rxMaskIndex % 4]);
        rxMaskIndex := rxMaskIndex + 1;
      }
    }

    /** Reads one byte; -1 when none has arrived. */
    method Read() returns (c: int)
      requires Valid()
      modifies `rxSize, `rxMaskIndex, `arrived
      ensures Valid()
      ensures old(arrived) == [] ==> c == -1 && rxSize == old(rxSize) && arrived == []
      ensures old(arrived) != [] ==> arrived == old(arrived)[1..]
      ensures 0 < old(rxSize) <= |old(arrived)| && old(rxSize) < Size64 ==>
        && rxSize == old(rxSize) - 1
        && c == old(Unread())[0]
        && Unread() == old(Unread())[1..]
    {
      var b := new byte[1];
      var count := ReadInto(b, 1, if arrived == [] then 0 else 1);
      if count > 0 {
        assert b[..1][0] == b[0];
        return b[0];
      }
      return -1;
    }

    /** Drops the rest of the current message, which must have arrived; without an upgrade, drops everything. */
    method FlushRx()
      requires Valid() && (upgraded ==> rxSize <= |arrived| && rxSize < Size64)
      modifies `rxSize, `rxMaskIndex, `arrived
      ensures Valid()
      ensures upgraded ==> rxSize == 0 && arrived == old(arrived)[old(rxSize)..]
      ensures !upgraded ==> arrived == []
    {
      while Available() > 0
        invariant Valid()
        invariant upgraded ==> rxSize <= |arrived| && rxSize <= old(rxSize) && arrived[rxSize..] == old(arrived)[old(rxSize)..]
        decreases |arrived|
      {
        ghost var a := arrived;
        ghost var n := rxSize;
        var _ := Read();
        assert upgraded ==> arrived[rxSize..] == a[n..];
      }
    }

    /** What has arrived behind the current message: the next frame and more. */
    ghost function Next(): (s: seq<byte>)
      reads this
      ensures upgraded && rxSize <= |arrived| ==> |s| == |arrived| - rxSize && arrived == arrived[..rxSize] + s
      ensures !upgraded ==> s == []
    {
      if upgraded && rxSize <= |arrived| then arrived[rxSize..] else []
    }

    /** The base class's read of one byte. */
    method TakeByte() returns (b: byte)
      requires arrived != []
      modifies `arrived
      ensures b == old(arrived)[0] && arrived == old(arrived)[1..]
    {
      b := arrived[0];
      arrived := arrived[1..];
    }

    /** The part of `parseMessage` that reads the header. */
    method ReadHeader()
      requires Valid() && ParseHeader(arrived).Some?
      modifies `rxOpCode, `rxMasked, `rxSize, `rxMaskKey, `rxMaskIndex, `arrived
      ensures Valid()
      ensures var h := ParseHeader(old(arrived)).value;
        && rxOpCode == NewOpCode(old(rxOpCode), h.opcode)
        && rxMasked == h.masked && rxSize == h.size && rxMaskIndex == 0 && (h.masked ==> rxMaskKey == h.key)
        && arrived == old(arrived)[h.length..]
    {
      hide ParseHeader, NewOpCode, OrByte, Widen, Word64;
      ghost var s := arrived;
      TwoAtLeast(s);
      HeaderParts(s, s[1..][1..]);
      NewOpCodeIs(rxOpCode, s[0]);
      var opcode := TakeByte();
      var length := TakeByte();
      if opcode % 16 == 0 {
        rxOpCode := OrByte(rxOpCode, opcode);
      } else {
        rxOpCode := opcode;
      }
      rxMasked := length >= 0x80;
      length := length % 0x80;
      if length < 126 {
        rxSize := length;
      } else if length == 126 {
        rxSize := Widen(arrived[0], arrived[1]);
        arrived := arrived[2..];
      } else {
        rxSize := Word64(arrived[..8]);
        arrived := arrived[8..];
      }
      if rxMasked {
        rxMaskKey := arrived[..4];
        arrived := arrived[4..];
      }
      rxMaskIndex := 0;
    }

    /** The loop that answers a ping: its bytes are written to the message being assembled. */
    method EchoPing()
      requires Valid() && upgraded && txStarted && rxSize <= |arrived| && rxSize < Size64
      requires txSize + rxSize <= txBuffer.Length
      modifies `txSize, `sent, `rxSize, `rxMaskIndex, `arrived, txBuffer
      ensures Valid() && sent == old(sent) && rxSize == 0
      ensures Buffered() == old(Buffered()) + old(Unread())
      ensures arrived == old(arrived)[old(rxSize)..]
    {
      ghost var all := Buffered() + Unread();
      ghost var behind := arrived[rxSize..];
      while Available() > 0
        invariant Valid() && rxSize <= |arrived| && rxSize < Size64 && txSize + rxSize <= txBuffer.Length
        invariant Buffered() + Unread() == all && arrived[rxSize..] == behind && sent == old(sent)
        decreases rxSize
      {
        ghost var unread, before, a := Unread(), Buffered(), arrived;
        ghost var n := rxSize;
        var c := Read();
        assert unread == [unread[0]] + Unread();
        assert arrived[rxSize..] == a[n..];
        ghost var left := Unread();
        var _ := Write([c]);
        assert [c][..1] == [c];
        assert left == Unread();
        Assoc(before, [unread[0]], left);
      }
      assert Unread() == [];
    }

    /**
     Reads the header of the next message, after dropping the rest of the current one.
     Close, ping and pong frames are dealt with here; the size of any other message is returned.
     A header must have arrived whole, and so must a control frame. The key masks a pong.
     */
    method ParseMessage(key: seq<byte>) returns (r: nat)
      requires Valid() && |key| == 4
      requires upgraded ==> rxSize <= |arrived| && rxSize < Size64
      requires |Next()| >= 2 ==> Arrived(Next(), rxOpCode)
      requires |Next()| >= 2 && MessageType(Next(), rxOpCode) == TYPE_PING ==>
        (if txStarted then txSize else 0) + ParseHeader(Next()).value.size <= txBuffer.Length
      modifies this, txBuffer
      ensures Valid()
      ensures |old(Next())| < 2 ==>
        && r == 0 && arrived == old(Next())
        && rxOpCode == old(rxOpCode) && sent == old(sent) && upgraded == old(upgraded)
      ensures |old(Next())| >= 2 ==>
        var h, mt := ParseHeader(old(Next())).value, MessageType(old(Next()), old(rxOpCode));
        && rxOpCode == NewOpCode(old(rxOpCode), h.opcode)
        && r == rxSize
        && (mt == TYPE_CONNECTION_CLOSE <==> !upgraded)
        && (mt != TYPE_PING ==> sent == old(sent))
        && (IsControl(mt) ==> r == 0)
      // the message is there to be read, as far as it has arrived
      ensures |old(Next())| >= 2 && !IsControl(MessageType(old(Next()), old(rxOpCode))) ==>
        var h := ParseHeader(old(Next())).value;
        && r == h.size && arrived == BehindHeader(old(Next()))
        && (rxSize <= |arrived| ==> Unread() == Payload(h, arrived))
      ensures |old(Next())| >= 2 && MessageType(old(Next()), old(rxOpCode)) in {TYPE_PING, TYPE_PONG} ==>
        arrived == BehindFrame(old(Next()))
      // a ping is answered with its own bytes, unless a message is being assembled
      ensures |old(Next())| >= 2 && MessageType(old(Next()), old(rxOpCode)) == TYPE_PING ==>
        var payload := FramePayload(old(Next()));
        && !txStarted
        && sent == old(sent) +
             if old(txStarted) then Frame(old(txMessageType), key, old(Buffered()) + payload)
             else Frame(TYPE_PONG, key, payload)
    {
      hide ParseHeader, NewOpCode, MessageType, Payload, Frame, Masked, Arrived;
      r := 0;
      var found := ReceiveHeader();
      if found {
        Dispatch(key);
        r := rxSize;
      }
    }

    /** The front of `parseMessage`: drops the rest of the current message, and reads the next header if there is one. */
    method ReceiveHeader() returns (found: bool)
      requires Valid()
      requires upgraded ==> rxSize <= |arrived| && rxSize < Size64
      requires |Next()| >= 2 ==> Arrived(Next(), rxOpCode)
      modifies `rxOpCode, `rxMasked, `rxSize, `rxMaskKey, `rxMaskIndex, `arrived
      ensures Valid() && (found <==> |old(Next())| >= 2)
      ensures !found ==> arrived == old(Next()) && rxOpCode == old(rxOpCode)
      ensures found ==>
        var s := old(Next());
        && upgraded && ParseHeader(s).Some?
        && var h := ParseHeader(s).value;
        && rxOpCode == NewOpCode(old(rxOpCode), h.opcode) && rxOpCode % 16 == MessageType(s, old(rxOpCode))
        && rxSize == h.size < Size64 && h.length <= |s| && (h.masked ==> |h.key| == 4)
        && arrived == s[h.length..]
        && (IsControl(rxOpCode % 16) ==> rxSize <= |arrived|)
        && (rxSize <= |arrived| ==> Unread() == Payload(h, arrived))
    {
      hide ParseHeader;
      ghost var s := Next();
      FlushRx();
      if |arrived| < 2 { return false; }
      assert arrived == s;
      KeyOf(s);
      ReadHeader();
      return true;
    }

    /** The end of `parseMessage`: what becomes of a frame whose header has been read. */
    method Dispatch(key: seq<byte>)
      requires Valid() && |key| == 4 && upgraded && rxSize < Size64
      requires IsControl(rxOpCode % 16) ==> rxSize <= |arrived|
      requires rxOpCode % 16 == TYPE_PING ==> (if txStarted then txSize else 0) + rxSize <= txBuffer.Length
      modifies `txStarted, `txMessageType, `txSize, `sent, `rxSize, `rxMaskIndex, `arrived, `upgraded, txBuffer
      ensures Valid() && (rxOpCode % 16 == TYPE_CONNECTION_CLOSE <==> !upgraded)
      ensures rxOpCode % 16 != TYPE_PING ==> sent == old(sent)
      ensures IsControl(rxOpCode % 16) ==> rxSize == 0
      ensures rxOpCode % 16 in {TYPE_PING, TYPE_PONG} ==> arrived == old(arrived)[old(rxSize)..]
      ensures rxOpCode % 16 == TYPE_PING ==>
        && !txStarted
        && sent == old(sent) +
             if old(txStarted) then Frame(old(txMessageType), key, old(Buffered()) + old(Unread()))
             else Frame(TYPE_PONG, key, old(Unread()))
      ensures !IsControl(rxOpCode % 16) ==>
        rxSize == old(rxSize) && arrived == old(arrived) && rxMaskIndex == old(rxMaskIndex)
    {
      hide Masked, Frame;
      var mt := rxOpCode % 16;
      if mt == TYPE_CONNECTION_CLOSE {
        FlushRx();
        Stop();
        rxSize := 0;
      } else if mt == TYPE_PING {
        var _ := BeginMessage(TYPE_PONG);
        assert !old(txStarted) ==> Buffered() == [];
        EchoPing();
        assert [] + old(Unread()) == old(Unread());
        assert Buffered() == if old(txStarted) then old(Buffered()) + old(Unread()) else old(Unread());
        var _ := EndMessage(key);
        rxSize := 0;
      } else if mt == TYPE_PONG {
        FlushRx();
        rxSize := 0;
      }
    }

    /** `stop` of the base class: the connection is closed and no longer upgraded. */
    method Stop()
      modifies `upgraded, `arrived
      ensures !upgraded && arrived == []
    {
      upgraded, arrived := false, [];
    }
  }

  /** Reading the first n of the rest of a message leaves the rest after them. */
  lemma {:induction false} NextOfMessage(arrived: seq<byte>, size: nat, masked: bool, key: seq<byte>, from: nat, n: nat)
    requires n <= size <= |arrived| && size < Size64 && |key| == 4
    ensures Minus64(size, n) == size - n
    ensures Plain(arrived[..n], masked, key, from) == Plain(arrived[..size], masked, key, from)[..n]
    ensures Plain(arrived[n..][..size - n], masked, key, from + if masked then n else 0)
         == Plain(arrived[..size], masked, key, from)[n..]
  {
    hide Masked;
    var whole := arrived[..size];
    assert whole == whole[..n] + whole[n..];
    assert arrived[..n] == whole[..n] && arrived[n..][..size - n] == whole[n..];
    MaskAppend(whole[..n], whole[n..], key, from);
  }

  lemma PlainIs(data: seq<byte>, masked: bool, key: seq<byte>, from: nat)
    requires |key| == 4
    ensures Plain(data, masked, key, from) == if masked && data != [] then Masked(data, key, from) else data
  {}

  lemma DropDrop(s: seq<byte>, a: nat, b: nat)
    requires a + b <= |s|
    ensures s[a..][b..] == s[a + b..] && s[a..][..b] == s[a..a + b]
  {}

  lemma KeyOf(s: seq<byte>)
    requires ParseHeader(s).Some?
    ensures var h := ParseHeader(s).value;
      (h.masked ==> |h.key| == 4) && 2 <= h.length <= |s| && h.size < Size64 && h.opcode == s[0]
  {
    WordBounds(if |s| >= 10 then s[2..10] else [0, 0, 0, 0, 0, 0, 0, 0]);
  }

  lemma WordBounds(s: seq<byte>)
    requires |s| == 8
    ensures Word64(s) < Size64
  {}

  /** The parts as `endMessage` sends them. */
  lemma FrameInParts(was: seq<byte>, opcode: byte, key: seq<byte>, payload: seq<byte>)
    requires opcode < 16 && |key| == 4
    ensures was + [0x80 + opcode] + LengthBytes(|payload|) + key + Masked(payload, key, 0) == was + Frame(opcode, key, payload)
  {
    hide LengthBytes, Masked;
  }
}
