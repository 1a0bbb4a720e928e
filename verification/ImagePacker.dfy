/**
 The flash image packer: firmware cut into blocks with a checksum each, and the sections of a package laid
 out in one image.
 */
module ImagePacker {
  import opened Common
  import opened Arith
  import opened Bits

  // ----- The checksum, on integers that are never cut to 16 bits

  const POLY: nat := 0x8005

  /** One bit: `(crc << 1) ^ 0x8005 if (crc & 0x8000) else (crc << 1)`. */
  function WideBit(crc: nat): nat {
    if crc / 0x8000 % 2 == 1 then BitXor(2 * crc, POLY) else 2 * crc
  }

  function WideBits(crc: nat, k: nat): nat {
    if k == 0 then crc else WideBit(WideBits(crc, k - 1))
  }

  function WideCrc(start: nat, s: seq<byte>): nat {
    if s == [] then start
    else WideBits(BitXor(WideCrc(start, s[..|s| - 1]), s[|s| - 1] as nat * 0x100), 8)
  }

  // ----- The checksum in a 16-bit register

  /** One bit of a register that drops what is shifted out. */
  function Bit16(crc: uint16): uint16 {
    if crc >= 0x8000 then Xor16(2 * crc % 0x1_0000, POLY) else 2 * crc % 0x1_0000
  }

  function Xor16(a: uint16, b: uint16): uint16 {
    assert Pow(2, 16) == 0x1_0000 by { PowEight(); }
    XorBound(a, b, 16);
    BitXor(a, b)
  }

  function Bits16(crc: uint16, k: nat): uint16 {
    if k == 0 then crc else Bit16(Bits16(crc, k - 1))
  }

  function Byte16(crc: uint16, value: byte): uint16 {
    Bits16(Xor16(crc, value * 0x100), 8)
  }

  function Crc16(start: uint16, s: seq<byte>): uint16 {
    if s == [] then start else Byte16(Crc16(start, s[..|s| - 1]), s[|s| - 1])
  }

  lemma {:induction false} XorLow(a: nat, b: nat)
    ensures BitXor(a, b) % 0x1_0000 == Xor16(a % 0x1_0000, b % 0x1_0000)
  {
    PowEight();
    XorMod(a, b, 16);
  }

  lemma TopBit(crc: nat)
    ensures crc / 0x8000 % 2 == 1 <==> crc % 0x1_0000 >= 0x8000
    ensures 2 * crc % 0x1_0000 == 2 * (crc % 0x1_0000) % 0x1_0000
  {
    var q, r := crc / 0x1_0000, crc % 0x1_0000;
    var h, l := r / 0x8000, r % 0x8000;
    assert crc == 0x8000 * (2 * q + h) + l;
    DivModUnique(crc, 2 * q + h, l, 0x8000);
    DivModUnique(2 * q + h, q, h, 2);
    DivModUnique(2 * crc, 2 * q + h, 2 * l, 0x1_0000);
    DivModUnique(2 * r, h, 2 * l, 0x1_0000);
  }

  lemma {:induction false} BitLow(crc: nat)
    ensures WideBit(crc) % 0x1_0000 == Bit16(crc % 0x1_0000)
  {
    hide BitXor, Xor16;
    TopBit(crc);
    XorLow(2 * crc, POLY);
  }

  lemma {:induction false} BitsLow(crc: nat, k: nat)
    ensures WideBits(crc, k) % 0x1_0000 == Bits16(crc % 0x1_0000, k)
  {
    hide WideBit, Bit16;
    if k > 0 {
      BitsLow(crc, k - 1);
      BitLow(WideBits(crc, k - 1));
    }
  }

  /** The low 16 bits of the unbounded checksum are the register. */
  lemma {:induction false} CrcLow(start: nat, s: seq<byte>)
    ensures WideCrc(start, s) % 0x1_0000 == Crc16(start % 0x1_0000, s)
  {
    hide WideBits, Bits16, BitXor, Xor16;
    if s != [] {
      var before, v: nat := WideCrc(start, s[..|s| - 1]), s[|s| - 1] as nat * 0x100;
      CrcLow(start, s[..|s| - 1]);
      XorLow(before, v);
      DivModUnique(v, 0, v, 0x1_0000);
      BitsLow(BitXor(before, v), 8);
    }
  }

  // ----- What the checksum detects

  lemma ShiftBound(x: nat, k: nat)
    requires x < 0x100 && k <= 8
    ensures x * Pow(2, k) <= 0xff * 0x100 && (k < 8 ==> x * Pow(2, k) < 0x8000)
  {
    assert Pow(2, 0) == 1 && Pow(2, 1) == 2 && Pow(2, 2) == 4 && Pow(2, 3) == 8 && Pow(2, 4) == 16;
    assert Pow(2, 5) == 32 && Pow(2, 6) == 64 && Pow(2, 7) == 128 && Pow(2, 8) == 256;
  }

  /** A byte in the low half is shifted up unchanged. */
  lemma {:induction false} LowByteShifts(x: uint16, k: nat)
    requires x < 0x100 && k <= 8
    ensures Bits16(x, k) == x * Pow(2, k)
  {
    assert Pow(2, 0) == 1;
    if k > 0 {
      var p := Pow(2, k - 1);
      assert Pow(2, k) == 2 * p;
      LowByteShifts(x, k - 1);
      ShiftBound(x, k - 1);
      hide Pow, Bits16, Bit16;
      BitsTurn(x, k);
      DoubleSmall(x * p);
      Doubled(x, p);
    }
  }

  lemma DoubleSmall(y: nat)
    requires y < 0x8000
    ensures Bit16(y) == 2 * y
  {}

  lemma Doubled(x: nat, p: nat)
    ensures x * (2 * p) == 2 * (x * p)
  {}

  lemma BitsTurn(x: uint16, k: nat)
    requires k > 0
    ensures Bits16(x, k) == Bit16(Bits16(x, k - 1))
  {}

  /** Sending the register itself, high byte first, clears it. */
  lemma OwnBytesClear(crc: uint16)
    ensures Byte16(Byte16(crc, crc / 0x100), crc % 0x100) == 0
  {
    hide BitXor, Bits16, Pow;
    var hi, lo := crc / 0x100, crc % 0x100;
    PowEight();
    XorSplit(hi, lo, hi, 0, 8);
    XorSelf(hi);
    XorZero(lo);
    LowByteShifts(lo, 8);
    XorSelf(lo * 0x100);
    LowByteShifts(0, 8);
  }

  /** Different registers stay different: the lowest bit tells whether the polynomial was joined in. */
  lemma BitIsInjective(a: uint16, b: uint16)
    requires Bit16(a) == Bit16(b)
    ensures a == b
  {
    hide BitXor;
    var x, y := 2 * a % 0x1_0000, 2 * b % 0x1_0000;
    XorUnfold(x, POLY);
    XorUnfold(y, POLY);
    XorTwice(x, POLY);
    XorTwice(y, POLY);
    EvenDouble(a);
    EvenDouble(b);
    SameDouble(a, b);
  }

  lemma EvenDouble(a: uint16)
    ensures var x := 2 * a % 0x1_0000; x % 2 == 0 && (x + POLY) % 2 == 1
  {}

  lemma SameDouble(a: uint16, b: uint16)
    ensures 2 * a % 0x1_0000 == 2 * b % 0x1_0000 && (a >= 0x8000 <==> b >= 0x8000) ==> a == b
  {}

  lemma {:induction false} BitsAreInjective(a: uint16, b: uint16, k: nat)
    requires Bits16(a, k) == Bits16(b, k)
    ensures a == b
  {
    if k > 0 {
      BitIsInjective(Bits16(a, k - 1), Bits16(b, k - 1));
      BitsAreInjective(a, b, k - 1);
    }
  }

  lemma ByteIsInjective(a: uint16, b: uint16, v: byte, w: byte)
    requires Byte16(a, v) == Byte16(b, w) && (a == b || v == w)
    ensures a == b && v == w
  {
    hide BitXor;
    BitsAreInjective(Xor16(a, v * 0x100), Xor16(b, w * 0x100), 8);
    XorTwice(a, v * 0x100);
    XorTwice(b, v * 0x100);
    XorTwice(v * 0x100, a);
    XorTwice(w * 0x100, a);
    XorCommutes(a, v * 0x100);
    XorCommutes(a, w * 0x100);
  }

  /** A changed byte changes the checksum, wherever it is. */
  lemma {:induction false} OneByteIsDetected(start: uint16, s: seq<byte>, t: seq<byte>, k: nat)
    requires |s| == |t| && k < |s| && s[k] != t[k]
    requires forall i :: 0 <= i < |s| && i != k ==> s[i] == t[i]
    ensures Crc16(start, s) != Crc16(start, t)
  {
    var n := |s| - 1;
    var a, b := Crc16(start, s[..n]), Crc16(start, t[..n]);
    if k == n {
      assert s[..n] == t[..n];
    } else {
      OneByteIsDetected(start, s[..n], t[..n], k);
    }
    if Byte16(a, s[n]) == Byte16(b, t[n]) {
      ByteIsInjective(a, b, s[n], t[n]);
    }
  }

  // ----- Blocks

  const START: nat := 0xffff_ffff
  const BLANK: byte := 0xff

  function Blanks(n: nat): (s: seq<byte>)
    ensures |s| == n && forall i :: 0 <= i < n ==> s[i] == BLANK
  {
    seq(n, _ => BLANK)
  }

  /** Filled up with 0xFF to whole chunks of 32 bytes. */
  function Pad(s: seq<byte>): (t: seq<byte>)
    ensures WholeChunks(|t|) && s <= t && |t| < |s| + 32
  {
    PadWhole(|s|);
    if |s| % 32 == 0 then s else s + Blanks(32 - |s| % 32)
  }

  lemma PadWhole(n: nat)
    ensures n % 32 != 0 ==> (n + (32 - n % 32)) % 32 == 0
  {
    DivModUnique(n + (32 - n % 32), n / 32 + 1, 0, 32);
  }

  function CrcBytes(chunk: seq<byte>): (s: seq<byte>)
    ensures |s| == 2
  {
    var crc := WideCrc(START, chunk) % 0x1_0000;
    [crc / 0x100, crc % 0x100]
  }

  /** Each chunk of 32 bytes, followed by its checksum. */
  function Blocks(s: seq<byte>): seq<byte>
    requires WholeChunks(|s|)
  {
    if s == [] then []
    else
      WholeChunk(|s|);
      s[..32] + CrcBytes(s[..32]) + Blocks(s[32..])
  }

  predicate WholeChunks(n: nat) { n % 32 == 0 }

  lemma WholeChunk(n: nat)
    requires n > 0 && n % 32 == 0
    ensures n >= 32 && (n - 32) % 32 == 0
  {
    DivModUnique(n - 32, n / 32 - 1, 0, 32);
  }

  /** What `bk_crc16` makes of a firmware. */
  function Protected(data: seq<byte>): seq<byte> {
    Blocks(Pad(data))
  }

  /** Without the last 2 of every 34 bytes. */
  function Strip(t: seq<byte>): seq<byte> {
    if |t| < 34 then [] else t[..32] + Strip(t[34..])
  }

  /** Every block of 34 bytes leaves remainder 0 in the register. */
  predicate Clears(t: seq<byte>)
    decreases |t|
  {
    |t| >= 34 ==> Crc16(0xffff, t[..34]) == 0 && Clears(t[34..])
  }

  /** The i-th block leaves remainder 0. */
  predicate BlockIsClear(t: seq<byte>, i: nat) {
    34 * i + 34 <= |t| ==> Crc16(0xffff, t[34 * i..34 * i + 34]) == 0
  }

  lemma BlockShift(t: seq<byte>, i: nat)
    requires |t| >= 34
    ensures BlockIsClear(t, i + 1) <==> BlockIsClear(t[34..], i)
    ensures BlockIsClear(t, 0) <==> Crc16(0xffff, t[..34]) == 0
  {
    hide Crc16;
    assert t[34 * 0..34 * 0 + 34] == t[..34];
    if 34 * i + 34 <= |t| - 34 {
      SliceShift(t, 34 * i);
      assert 34 * (i + 1) == 34 * i + 34;
    }
  }

  lemma SliceShift(t: seq<byte>, a: nat)
    requires a + 68 <= |t|
    ensures t[34..][a..a + 34] == t[a + 34..a + 68]
  {}

  /** Every block, by its number. */
  lemma {:induction false} ClearsEveryBlock(t: seq<byte>)
    ensures Clears(t) <==> forall i: nat :: BlockIsClear(t, i)
    decreases |t|
  {
    hide Crc16, BlockIsClear;
    if |t| < 34 {
      forall i: nat ensures BlockIsClear(t, i) { NoBlock(t, i); }
    } else {
      ClearsEveryBlock(t[34..]);
      BlockShift(t, 0);
      if Clears(t) {
        forall i: nat ensures BlockIsClear(t, i) {
          if i > 0 { assert BlockIsClear(t[34..], i - 1); BlockShift(t, i - 1); }
        }
      }
      if forall i: nat :: BlockIsClear(t, i) {
        forall i: nat ensures BlockIsClear(t[34..], i) { BlockShift(t, i); }
      }
    }
  }

  lemma NoBlock(t: seq<byte>, i: nat)
    requires |t| < 34
    ensures BlockIsClear(t, i)
  {}

  lemma {:induction false} BlockClears(chunk: seq<byte>)
    ensures Crc16(0xffff, chunk + CrcBytes(chunk)) == 0
  {
    hide Byte16, WideCrc, CrcBytes, Crc16;
    var crc := Crc16(0xffff, chunk);
    CrcBytesAre(chunk);
    var one := chunk + [crc / 0x100];
    assert chunk + CrcBytes(chunk) == one + [crc % 0x100];
    CrcSnoc(0xffff, chunk, crc / 0x100);
    CrcSnoc(0xffff, one, crc % 0x100);
    OwnBytesClear(crc);
  }

  lemma CrcBytesAre(chunk: seq<byte>)
    ensures CrcBytes(chunk) == [Crc16(0xffff, chunk) / 0x100, Crc16(0xffff, chunk) % 0x100]
  {
    CrcLow(START, chunk);
    hide WideCrc, Crc16;
  }

  lemma CrcSnoc(start: uint16, s: seq<byte>, v: byte)
    ensures Crc16(start, s + [v]) == Byte16(Crc16(start, s), v)
  {
    hide Byte16;
    assert (s + [v])[..|s|] == s;
  }

  /** The blocks give the data back, and each is right. */
  lemma {:induction false} BlocksRoundTrip(s: seq<byte>)
    requires |s| % 32 == 0
    ensures Strip(Blocks(s)) == s && Clears(Blocks(s)) && 32 * |Blocks(s)| == 34 * |s|
  {
    hide CrcBytes, Crc16;
    if s != [] {
      WholeChunk(|s|);
      BlocksRoundTrip(s[32..]);
      var chunk, sum, rest := s[..32], CrcBytes(s[..32]), Blocks(s[32..]);
      BlockClears(chunk);
      BlockFront(chunk, sum, rest);
      assert s == chunk + s[32..];
    }
  }

  lemma BlockFront(chunk: seq<byte>, sum: seq<byte>, rest: seq<byte>)
    requires |chunk| == 32 && |sum| == 2
    ensures var t := chunk + sum + rest;
      t[..32] == chunk && t[..34] == chunk + sum && t[34..] == rest && |t| >= 34
  {}

  /** The packed firmware gives the padded firmware back. */
  lemma {:induction false} ProtectedRoundTrip(data: seq<byte>)
    ensures Strip(Protected(data)) == Pad(data) && Clears(Protected(data))
  {
    BlocksRoundTrip(Pad(data));
  }

  /** The eight turns for one byte. */
  method CrcByte(crc0: nat, value: byte) returns (crc: nat)
    ensures crc == WideBits(BitXor(crc0, value as nat * 0x100), 8)
  {
    crc := BitXor(crc0, value as nat * 0x100);
    ghost var start := crc;
    for i := 0 to 8
      invariant crc == WideBits(start, i)
    {
      crc := if crc / 0x8000 % 2 == 1 then BitXor(2 * crc, POLY) else 2 * crc;
    }
  }

  /** `bk_crc16`. */
  method BkCrc16(data0: seq<byte>) returns (out: seq<byte>)
    ensures out == Protected(data0)
  {
    hide Blocks, Pad, CrcBytes, WholeChunks;
    var data := PadChunks(data0);
    out := [];
    var offset := 0;
    assert data[0..] == data;
    while offset < |data|
      invariant offset <= |data| && WholeChunks(|data| - offset)
      invariant out + Blocks(data[offset..]) == Blocks(data)
    {
      NextBlock(data, offset, out);
      var chunk := data[offset..offset + 32];
      var sum := ChunkSum(chunk);
      out := out + chunk;
      out := out + sum;
      offset := offset + 32;
    }
    BlocksOfNothing();
    assert data[offset..] == [];
  }

  /** The padding in front of the loop. */
  method PadChunks(data0: seq<byte>) returns (data: seq<byte>)
    ensures data == Pad(data0) && WholeChunks(|data|)
  {
    data := data0;
    if |data| % 32 != 0 {
      data := data + Blanks(32 - |data| % 32);
    }
  }

  /** The block at `offset` extends what has been written. */
  lemma NextBlock(data: seq<byte>, offset: nat, out: seq<byte>)
    requires offset < |data| && WholeChunks(|data| - offset)
    ensures offset + 32 <= |data| && WholeChunks(|data| - (offset + 32))
    ensures var chunk := data[offset..offset + 32];
      out + Blocks(data[offset..]) == out + chunk + CrcBytes(chunk) + Blocks(data[offset + 32..])
  {
    hide Blocks, CrcBytes;
    WholeChunk(|data| - offset);
    var chunk, rest := data[offset..offset + 32], data[offset + 32..];
    BlocksTurn(data[offset..]);
    assert data[offset..][..32] == chunk && data[offset..][32..] == rest;
    Glue(out, chunk, CrcBytes(chunk), Blocks(rest));
  }

  /** The checksum of one chunk, as two bytes. */
  method ChunkSum(chunk: seq<byte>) returns (sum: seq<byte>)
    ensures sum == CrcBytes(chunk)
  {
    hide WideBits, BitXor;
    var crc: nat := START;
    for i := 0 to |chunk|
      invariant crc == WideCrc(START, chunk[..i])
    {
      assert chunk[..i + 1][..i] == chunk[..i];
      crc := CrcByte(crc, chunk[i]);
    }
    assert chunk[..|chunk|] == chunk;
    crc := crc % 0x1_0000;
    sum := [crc / 0x100, crc % 0x100];
  }

  lemma {:induction false} BlocksTurn(s: seq<byte>)
    requires |s| % 32 == 0 && |s| >= 32
    ensures (|s| - 32) % 32 == 0 && Blocks(s) == s[..32] + CrcBytes(s[..32]) + Blocks(s[32..])
  {
    WholeChunk(|s|);
  }

  lemma BlocksOfNothing()
    ensures Blocks([]) == []
  {}

  lemma Glue(a: seq<byte>, b: seq<byte>, c: seq<byte>, d: seq<byte>)
    ensures a + (b + c + d) == a + b + c + d
  {}

  // ----- Sections

  /** A section of the package; `size` is the room it has. */
  datatype Section = Section(start: nat, size: nat, firmware: string)

  /** What goes where. */
  datatype Placed = Placed(start: nat, data: seq<byte>)

  function End(p: Placed): nat {
    p.start + |p.data|
  }

  datatype Outcome = Image(bytes: seq<byte>) | Missing(firmware: string) | TooBig(firmware: string) | Overlap

  type Files = map<string, seq<byte>>

  /** Behind every section that does not start later. */
  function Insert(ss: seq<Section>, s: Section): seq<Section> {
    if ss == [] || ss[|ss| - 1].start <= s.start then ss + [s]
    else Insert(ss[..|ss| - 1], s) + [ss[|ss| - 1]]
  }

  /** `sorted` by start address; sections with the same start stay in their order. */
  function SortByStart(ss: seq<Section>): seq<Section> {
    if ss == [] then [] else Insert(SortByStart(ss[..|ss| - 1]), ss[|ss| - 1])
  }

  ghost predicate InOrder(ss: seq<Section>) {
    forall i, j :: 0 <= i < j < |ss| ==> ss[i].start <= ss[j].start
  }

  lemma {:induction false} InsertKeeps(ss: seq<Section>, s: Section)
    ensures multiset(Insert(ss, s)) == multiset(ss) + multiset{s}
  {
    if ss != [] && ss[|ss| - 1].start > s.start {
      InsertKeeps(ss[..|ss| - 1], s);
      assert ss == ss[..|ss| - 1] + [ss[|ss| - 1]];
    }
  }

  lemma {:induction false} InsertSorts(ss: seq<Section>, s: Section)
    requires InOrder(ss)
    ensures InOrder(Insert(ss, s))
  {
    if ss != [] && ss[|ss| - 1].start > s.start {
      var front, last := ss[..|ss| - 1], ss[|ss| - 1];
      InsertSorts(front, s);
      InsertKeeps(front, s);
      var t := Insert(front, s);
      hide Insert;
      forall i | 0 <= i < |t| ensures t[i].start <= last.start {
        assert t[i] in multiset(t);
        assert t[i] in multiset(front) || t[i] == s;
      }
      SnocInOrder(t, last);
    }
  }

  lemma SnocInOrder(ss: seq<Section>, s: Section)
    requires InOrder(ss) && forall i :: 0 <= i < |ss| ==> ss[i].start <= s.start
    ensures InOrder(ss + [s])
  {}

  /** A permutation in order. */
  lemma {:induction false} SortSorts(ss: seq<Section>)
    ensures InOrder(SortByStart(ss)) && multiset(SortByStart(ss)) == multiset(ss)
  {
    if ss != [] {
      var front, last := ss[..|ss| - 1], ss[|ss| - 1];
      assert ss == front + [last];
      SortSorts(front);
      InsertSorts(SortByStart(front), last);
      InsertKeeps(SortByStart(front), last);
    }
  }

  /** The sections with a given start. */
  function StartingAt(ss: seq<Section>, a: nat): seq<Section> {
    if ss == [] then [] else StartingAt(ss[..|ss| - 1], a) + if ss[|ss| - 1].start == a then [ss[|ss| - 1]] else []
  }

  lemma StartingSnoc(ss: seq<Section>, s: Section, a: nat)
    ensures StartingAt(ss + [s], a) == StartingAt(ss, a) + if s.start == a then [s] else []
  {
    assert (ss + [s])[..|ss|] == ss;
  }

  lemma InsertOnce(ss: seq<Section>, s: Section)
    ensures Insert(ss, s) ==
      if ss == [] || ss[|ss| - 1].start <= s.start then ss + [s] else Insert(ss[..|ss| - 1], s) + [ss[|ss| - 1]]
  {}

  lemma FrontInOrder(ss: seq<Section>)
    requires InOrder(ss) && ss != []
    ensures InOrder(ss[..|ss| - 1])
  {}

  lemma LastIsLatest(ss: seq<Section>)
    requires InOrder(ss)
    ensures forall i :: 0 <= i < |ss| ==> ss[i].start <= ss[|ss| - 1].start
  {}

  lemma {:induction false} InsertIsStable(ss: seq<Section>, s: Section, a: nat)
    requires InOrder(ss)
    ensures StartingAt(Insert(ss, s), a) == StartingAt(ss, a) + if s.start == a then [s] else []
  {
    hide InOrder, Insert, StartingAt;
    InsertOnce(ss, s);
    if ss == [] || ss[|ss| - 1].start <= s.start {
      StartingSnoc(ss, s, a);
    } else {
      var front, last := ss[..|ss| - 1], ss[|ss| - 1];
      FrontInOrder(ss);
      InsertIsStable(front, s, a);
      StartingSnoc(Insert(front, s), last, a);
      assert ss == front + [last];
      StartingSnoc(front, last, a);
    }
  }

  /** Sections with the same start are not reordered. */
  lemma {:induction false} SortIsStable(ss: seq<Section>, a: nat)
    ensures StartingAt(SortByStart(ss), a) == StartingAt(ss, a)
  {
    if ss != [] {
      SortIsStable(ss[..|ss| - 1], a);
      SortSorts(ss[..|ss| - 1]);
      InsertIsStable(SortByStart(ss[..|ss| - 1]), ss[|ss| - 1], a);
    }
  }

  // ----- Packing and laying out

  function Packed(data: seq<byte>, crcEnable: bool): seq<byte> {
    if crcEnable then Protected(data) else data
  }

  /** The section, or what is wrong with it. */
  function PackOne(s: Section, files: Files, crcEnable: bool): Outcome {
    if s.firmware !in files then Missing(s.firmware)
    else
      var data := Packed(files[s.firmware], crcEnable);
      if |data| > s.size then TooBig(s.firmware) else Image(data)
  }

  /** The first section, in order, that cannot be packed. */
  function FirstFault(ss: seq<Section>, files: Files, crcEnable: bool): Option<Outcome> {
    if ss == [] then None
    else if FirstFault(ss[..|ss| - 1], files, crcEnable).Some? then FirstFault(ss[..|ss| - 1], files, crcEnable)
    else
      var o := PackOne(ss[|ss| - 1], files, crcEnable);
      if o.Image? then None else Some(o)
  }

  predicate Packable(ss: seq<Section>, files: Files, crcEnable: bool) {
    forall i :: 0 <= i < |ss| ==> PackOne(ss[i], files, crcEnable).Image?
  }

  lemma PackableTurn(ss: seq<Section>, files: Files, crcEnable: bool)
    requires ss != []
    ensures Packable(ss, files, crcEnable) <==>
      Packable(ss[..|ss| - 1], files, crcEnable) && PackOne(ss[|ss| - 1], files, crcEnable).Image?
  {
    hide PackOne;
    var front := ss[..|ss| - 1];
    assert forall i :: 0 <= i < |front| ==> front[i] == ss[i];
  }

  lemma {:induction false} NoFault(ss: seq<Section>, files: Files, crcEnable: bool)
    ensures FirstFault(ss, files, crcEnable) == None <==> Packable(ss, files, crcEnable)
    ensures var f := FirstFault(ss, files, crcEnable); f.Some? ==> !f.value.Image?
  {
    hide PackOne;
    if ss != [] {
      NoFault(ss[..|ss| - 1], files, crcEnable);
      PackableTurn(ss, files, crcEnable);
      hide Packable;
    }
  }

  function PlacedAt(ss: seq<Section>, files: Files, crcEnable: bool): (ps: seq<Placed>)
    requires Packable(ss, files, crcEnable)
    ensures |ps| == |ss|
    ensures forall i :: 0 <= i < |ss| ==> ps[i] == Placed(ss[i].start, PackOne(ss[i], files, crcEnable).bytes)
  {
    seq(|ss|, i requires 0 <= i < |ss| => Placed(ss[i].start, PackOne(ss[i], files, crcEnable).bytes))
  }

  /** One behind the other, with 0xFF in between; None when they overlap. */
  function Layout(ps: seq<Placed>): Option<seq<byte>> {
    if ps == [] then Some([])
    else
      var before, p := Layout(ps[..|ps| - 1]), ps[|ps| - 1];
      if before.None? || |before.value| > p.start then None
      else Some(before.value + Blanks(p.start - |before.value|) + p.data)
  }

  ghost predicate Apart(ps: seq<Placed>) {
    forall i, j :: 0 <= i < j < |ps| ==> End(ps[i]) <= ps[j].start
  }

  /** Everything is in its place, and what is in no place is blank. */
  ghost predicate Holds(out: seq<byte>, ps: seq<Placed>) {
    && (forall i :: 0 <= i < |ps| ==> End(ps[i]) <= |out| && out[ps[i].start..End(ps[i])] == ps[i].data)
    && (forall k :: 0 <= k < |out| ==> out[k] == BLANK || exists i :: 0 <= i < |ps| && ps[i].start <= k < End(ps[i]))
    && (ps == [] ==> out == [])
    && (ps != [] ==> |out| == End(ps[|ps| - 1]))
  }

  /** The layout exists exactly when the places are apart; then it holds them all. */
  lemma {:induction false} LayoutHolds(ps: seq<Placed>)
    ensures Layout(ps).Some? <==> Apart(ps)
    ensures Layout(ps).Some? ==> Holds(Layout(ps).value, ps)
  {
    if ps != [] {
      var n := |ps| - 1;
      var front, p := ps[..n], ps[n];
      FrontApart(ps);
      LayoutSnoc(front, p);
      hide Holds, Apart, Layout;
      assert ps == front + [p];
      LayoutHolds(front);
      if Layout(front).Some? {
        LayoutStep(Layout(front).value, front, p);
      }
    }
  }

  lemma LayoutSnoc(front: seq<Placed>, p: Placed)
    ensures var before := Layout(front);
      Layout(front + [p]) == if before.None? || |before.value| > p.start then None
                             else Some(before.value + Blanks(p.start - |before.value|) + p.data)
  {
    assert (front + [p])[..|front|] == front;
  }

  lemma FrontApart(ps: seq<Placed>)
    requires ps != []
    ensures Apart(ps) ==> Apart(ps[..|ps| - 1])
  {}

  lemma HoldsAt(out: seq<byte>, ps: seq<Placed>, i: nat)
    requires Holds(out, ps) && i < |ps|
    ensures End(ps[i]) <= |out| && out[ps[i].start..End(ps[i])] == ps[i].data
  {}

  lemma LayoutStep(before: seq<byte>, front: seq<Placed>, p: Placed)
    requires Apart(front) && Holds(before, front)
    ensures Apart(front + [p]) <==> |before| <= p.start
    ensures |before| <= p.start ==> Holds(before + Blanks(p.start - |before|) + p.data, front + [p])
  {
    var ps := front + [p];
    forall i | 0 <= i < |front| ensures End(front[i]) <= |before| && ps[i] == front[i] {}
    if |before| <= p.start {
      var out := before + Blanks(p.start - |before|) + p.data;
      assert out[p.start..End(p)] == p.data;
      assert out[..|before|] == before;
      forall k | |before| <= k < p.start ensures out[k] == BLANK {
        assert out[k] == Blanks(p.start - |before|)[k - |before|];
      }
      StillHolds(before, front, p, out);
    } else {
      assert front != [];
      assert ps[|front| - 1] == front[|front| - 1] && ps[|front|] == p;
      assert End(ps[|front| - 1]) > ps[|front|].start;
    }
  }

  lemma StillHolds(before: seq<byte>, front: seq<Placed>, p: Placed, out: seq<byte>)
    requires Holds(before, front) && |before| <= p.start && |out| == End(p)
    requires out[..|before|] == before && out[p.start..End(p)] == p.data
    requires forall k :: |before| <= k < p.start ==> out[k] == BLANK
    ensures Holds(out, front + [p])
  {
    var ps := front + [p];
    assert ps[|front|] == p;
    forall k | 0 <= k < |out|
      ensures out[k] == BLANK || exists i :: 0 <= i < |ps| && ps[i].start <= k < End(ps[i])
    {
      if k < |before| {
        assert out[k] == before[k];
        if before[k] != BLANK {
          var i :| 0 <= i < |front| && front[i].start <= k < End(front[i]);
          assert ps[i] == front[i];
        }
      }
    }
    forall i | 0 <= i < |ps| ensures End(ps[i]) <= |out| && out[ps[i].start..End(ps[i])] == ps[i].data {
      if i < |front| {
        var a, b := front[i].start, End(front[i]);
        SliceWithin(out, |before|, a, b);
      }
    }
  }

  lemma SliceWithin(s: seq<byte>, n: nat, a: nat, b: nat)
    requires a <= b <= n <= |s|
    ensures s[a..b] == s[..n][a..b]
  {}

  /** The outcome of `build_all_app_image`. */
  function Build(sections: seq<Section>, files: Files, crcEnable: bool): Outcome {
    var ss := SortByStart(sections);
    NoFault(ss, files, crcEnable);
    if FirstFault(ss, files, crcEnable).Some? then FirstFault(ss, files, crcEnable).value
    else
      var out := Layout(PlacedAt(ss, files, crcEnable));
      if out.None? then Overlap else Image(out.value + Blanks(34))
  }

  /** The packing loop: in order, until a section cannot be packed. */
  method PackSections(ss: seq<Section>, files: Files, crcEnable: bool) returns (fault: Option<Outcome>, ps: seq<Placed>)
    ensures fault == FirstFault(ss, files, crcEnable)
    ensures fault == None ==> Packable(ss, files, crcEnable) && ps == PlacedAt(ss, files, crcEnable)
  {
    ps := [];
    for i := 0 to |ss|
      invariant FirstFault(ss[..i], files, crcEnable) == None
      invariant |ps| == i
      invariant forall j :: 0 <= j < i ==>
        PackOne(ss[j], files, crcEnable).Image? && ps[j] == Placed(ss[j].start, PackOne(ss[j], files, crcEnable).bytes)
    {
      FaultTurn(ss, i, files, crcEnable);
      var s := ss[i];
      if s.firmware !in files {
        LaterFault(ss, i, files, crcEnable);
        return Some(Missing(s.firmware)), ps;
      }
      var packed := files[s.firmware];
      if crcEnable { packed := BkCrc16(packed); }
      if |packed| > s.size {
        LaterFault(ss, i, files, crcEnable);
        return Some(TooBig(s.firmware)), ps;
      }
      ps := ps + [Placed(s.start, packed)];
    }
    assert ss[..|ss|] == ss;
    fault := None;
  }

  lemma FaultTurn(ss: seq<Section>, i: nat, files: Files, crcEnable: bool)
    requires i < |ss| && FirstFault(ss[..i], files, crcEnable) == None
    ensures var o := PackOne(ss[i], files, crcEnable);
      FirstFault(ss[..i + 1], files, crcEnable) == if o.Image? then None else Some(o)
  {
    hide PackOne;
    assert ss[..i + 1][..i] == ss[..i] && ss[..i + 1][i] == ss[i];
  }

  /** The first fault of some sections stays the first fault when more follow. */
  lemma {:induction false} LaterFault(ss: seq<Section>, i: nat, files: Files, crcEnable: bool)
    requires i < |ss| && FirstFault(ss[..i + 1], files, crcEnable).Some?
    ensures FirstFault(ss, files, crcEnable) == FirstFault(ss[..i + 1], files, crcEnable)
    decreases |ss|
  {
    if i + 1 == |ss| {
      assert ss[..i + 1] == ss;
    } else {
      var front := ss[..|ss| - 1];
      assert front[..i + 1] == ss[..i + 1];
      LaterFault(front, i, files, crcEnable);
    }
  }

  /** The loop that lays the packed sections out. */
  method LayOut(ps: seq<Placed>) returns (r: Option<seq<byte>>)
    ensures r == Layout(ps)
  {
    var out: seq<byte> := [];
    var current := 0;
    for i := 0 to |ps|
      invariant Layout(ps[..i]) == Some(out) && current == |out|
    {
      LayoutTurn(ps, i, out);
      var address, data := ps[i].start, ps[i].data;
      if current > address {
        LaterOverlap(ps, i);
        return None;
      }
      if current < address {
        out := out + Blanks(address - current);
        current := address;
      }
      out := out + data;
      current := current + |data|;
    }
    assert ps[..|ps|] == ps;
    r := Some(out);
  }

  lemma LayoutTurn(ps: seq<Placed>, i: nat, out: seq<byte>)
    requires i < |ps| && Layout(ps[..i]) == Some(out)
    ensures |out| > ps[i].start ==> Layout(ps[..i + 1]) == None
    ensures |out| < ps[i].start ==> Layout(ps[..i + 1]) == Some(out + Blanks(ps[i].start - |out|) + ps[i].data)
    ensures |out| == ps[i].start ==> Layout(ps[..i + 1]) == Some(out + ps[i].data)
  {
    assert ps[..i + 1][..i] == ps[..i] && ps[..i + 1][i] == ps[i];
    assert |out| == ps[i].start ==> out + Blanks(0) == out;
  }

  lemma {:induction false} LaterOverlap(ps: seq<Placed>, i: nat)
    requires i < |ps| && Layout(ps[..i + 1]).None?
    ensures Layout(ps).None?
    decreases |ps|
  {
    if i + 1 == |ps| {
      assert ps[..i + 1] == ps;
    } else {
      var front := ps[..|ps| - 1];
      assert front[..i + 1] == ps[..i + 1];
      LaterOverlap(front, i);
    }
  }

  /** `build_all_app_image`, from the sections of the package and the contents of the work files. */
  method BuildAllAppImage(sections: seq<Section>, files: Files, crcEnable: bool) returns (r: Outcome)
    ensures r == Build(sections, files, crcEnable)
  {
    var ss := SortByStart(sections);
    var fault, ps := PackSections(ss, files, crcEnable);
    if fault.Some? { return fault.value; }
    var out := LayOut(ps);
    if out.None? { return Overlap; }
    r := Image(out.value + Blanks(34));
  }

  // ----- What an accepted package gives

  /** Where a section comes in the order of start addresses. */
  lemma PlaceOf(sections: seq<Section>, s: Section) returns (i: nat)
    requires s in sections
    ensures i < |SortByStart(sections)| && SortByStart(sections)[i] == s
  {
    SortSorts(sections);
    assert s in multiset(sections);
    assert s in multiset(SortByStart(sections));
    i :| 0 <= i < |SortByStart(sections)| && SortByStart(sections)[i] == s;
  }

  /** How an image came about. */
  lemma ImageOf(sections: seq<Section>, files: Files, crcEnable: bool) returns (ps: seq<Placed>, out: seq<byte>)
    requires Build(sections, files, crcEnable).Image?
    ensures var ss := SortByStart(sections);
      && Packable(ss, files, crcEnable) && ps == PlacedAt(ss, files, crcEnable)
      && Apart(ps) && Holds(out, ps)
    ensures Build(sections, files, crcEnable).bytes == out + Blanks(34)
  {
    hide SortByStart, FirstFault, PackOne, Holds, Apart;
    var ss := SortByStart(sections);
    NoFault(ss, files, crcEnable);
    ps := PlacedAt(ss, files, crcEnable);
    LayoutHolds(ps);
    out := Layout(ps).value;
  }

  /** Slicing the image at the start of a section gives its packed firmware, with right checksums; without them, the padded firmware. */
  lemma SectionsAreRecovered(sections: seq<Section>, files: Files, s: Section)
    requires s in sections && Build(sections, files, true).Image?
    ensures s.firmware in files
    ensures var img, n := Build(sections, files, true).bytes, |Protected(files[s.firmware])|;
      && n <= s.size && s.start + n + 34 <= |img|
      && Strip(img[s.start..s.start + n]) == Pad(files[s.firmware])
      && Clears(img[s.start..s.start + n])
  {
    hide Protected, Strip, Pad, Clears, Build;
    var out := SectionInImage(sections, files, s);
    RecoveredFrom(out, s.start, files[s.firmware]);
  }

  /** A section in the image, without the blanks at the end. */
  lemma {:induction false} SectionInImage(sections: seq<Section>, files: Files, s: Section) returns (out: seq<byte>)
    requires s in sections && Build(sections, files, true).Image?
    ensures Build(sections, files, true).bytes == out + Blanks(34)
    ensures s.firmware in files
    ensures var data := Protected(files[s.firmware]);
      |data| <= s.size && s.start + |data| <= |out| && out[s.start..s.start + |data|] == data
  {
    hide Protected, Build, Apart, Holds, SortByStart;
    var ps;
    ps, out := ImageOf(sections, files, true);
    var i := PlaceOf(sections, s);
    assert PackOne(SortByStart(sections)[i], files, true).Image?;
    hide Packable;
    assert ps[i] == Placed(s.start, Protected(files[s.firmware])) && |ps[i].data| <= s.size;
    HoldsAt(out, ps, i);
  }

  lemma RecoveredFrom(out: seq<byte>, start: nat, data: seq<byte>)
    requires start + |Protected(data)| <= |out| && out[start..start + |Protected(data)|] == Protected(data)
    ensures var img, n := out + Blanks(34), |Protected(data)|;
      && start + n + 34 <= |img|
      && Strip(img[start..start + n]) == Pad(data) && Clears(img[start..start + n])
  {
    hide Protected, Strip, Pad, Clears;
    ProtectedRoundTrip(data);
    SliceOfFront(out, Blanks(34), start, start + |Protected(data)|);
  }

  lemma SliceOfFront(a: seq<byte>, b: seq<byte>, i: nat, j: nat)
    requires i <= j <= |a|
    ensures (a + b)[i..j] == a[i..j]
  {}

  /** What no section covers is 0xFF, and so are the last 34 bytes. */
  lemma OutsideIsBlank(sections: seq<Section>, files: Files, crcEnable: bool, k: nat)
    requires Build(sections, files, crcEnable).Image? && k < |Build(sections, files, crcEnable).bytes|
    requires forall s :: s in sections && s.firmware in files ==>
      !(s.start <= k < s.start + |Packed(files[s.firmware], crcEnable)|)
    ensures Build(sections, files, crcEnable).bytes[k] == BLANK
  {
    var ps, out := ImageOf(sections, files, crcEnable);
    if k < |out| {
      forall i | 0 <= i < |ps| ensures !(ps[i].start <= k < End(ps[i])) {
        PlaceIsSection(sections, files, crcEnable, i);
      }
    }
  }

  /** Every place belongs to a section of the package. */
  lemma PlaceIsSection(sections: seq<Section>, files: Files, crcEnable: bool, i: nat)
    requires Packable(SortByStart(sections), files, crcEnable) && i < |SortByStart(sections)|
    ensures var s := SortByStart(sections)[i];
      && s in sections && s.firmware in files
      && PlacedAt(SortByStart(sections), files, crcEnable)[i] == Placed(s.start, Packed(files[s.firmware], crcEnable))
  {
    var s := SortByStart(sections)[i];
    SortSorts(sections);
    assert s in multiset(SortByStart(sections));
    assert PackOne(s, files, crcEnable).Image?;
  }

  // ----- Which packages are accepted

  /** The packed size of a section, and where it ends. */
  function PackedSize(s: Section, files: Files, crcEnable: bool): nat {
    if s.firmware in files then |Packed(files[s.firmware], crcEnable)| else 0
  }

  function PackedEnd(s: Section, files: Files, crcEnable: bool): nat {
    s.start + PackedSize(s, files, crcEnable)
  }

  /** Each section ends before the later ones in the list begin. */
  ghost predicate InRow(ss: seq<Section>, files: Files, crcEnable: bool) {
    forall i, j :: 0 <= i < j < |ss| ==> PackedEnd(ss[i], files, crcEnable) <= ss[j].start
  }

  /** What is asked of s and t when s is listed before t. */
  predicate Fair(s: Section, t: Section, files: Files, crcEnable: bool) {
    if s.start < t.start then PackedEnd(s, files, crcEnable) <= t.start
    else if t.start < s.start then PackedEnd(t, files, crcEnable) <= s.start
    else PackedSize(s, files, crcEnable) == 0
  }

  ghost predicate AllFair(ss: seq<Section>, files: Files, crcEnable: bool) {
    forall i, j :: 0 <= i < j < |ss| ==> Fair(ss[i], ss[j], files, crcEnable)
  }

  /** The outcome is an image exactly when every section can be packed and, in order, ends before the next begins. */
  lemma AcceptedExactly(sections: seq<Section>, files: Files, crcEnable: bool)
    ensures var ss := SortByStart(sections);
      Build(sections, files, crcEnable).Image? <==>
        Packable(ss, files, crcEnable) && Apart(PlacedAt(ss, files, crcEnable))
  {
    hide SortByStart, FirstFault, PackOne, Apart, Packable;
    var ss := SortByStart(sections);
    NoFault(ss, files, crcEnable);
    if FirstFault(ss, files, crcEnable) == None {
      LayoutHolds(PlacedAt(ss, files, crcEnable));
    }
  }

  lemma ApartIsInRow(ss: seq<Section>, files: Files, crcEnable: bool)
    requires Packable(ss, files, crcEnable)
    ensures Apart(PlacedAt(ss, files, crcEnable)) <==> InRow(ss, files, crcEnable)
  {
    hide Packed;
    var ps := PlacedAt(ss, files, crcEnable);
    forall i | 0 <= i < |ss| ensures ps[i].start == ss[i].start && End(ps[i]) == PackedEnd(ss[i], files, crcEnable) {
      assert PackOne(ss[i], files, crcEnable).Image?;
    }
  }

  /** Where insertion puts a section: behind those that do not start later. */
  lemma {:induction false} InsertAt(ss: seq<Section>, s: Section) returns (k: nat)
    requires InOrder(ss)
    ensures k <= |ss| && Insert(ss, s) == ss[..k] + [s] + ss[k..]
    ensures forall i :: 0 <= i < k ==> ss[i].start <= s.start
    ensures forall i :: k <= i < |ss| ==> ss[i].start > s.start
  {
    hide InOrder, Insert;
    InsertOnce(ss, s);
    k := |ss|;
    if ss == [] || ss[|ss| - 1].start <= s.start {
      LastIsLatest(ss);
      assert ss[..k] == ss && ss[k..] == [];
    } else {
      FrontInOrder(ss);
      var front, last := ss[..|ss| - 1], ss[|ss| - 1];
      k := InsertAt(front, s);
      assert ss[..k] == front[..k] && ss[k..] == front[k..] + [last];
      Assoc(front[..k] + [s], front[k..], [last]);
    }
  }

  /** Everything in x ends before everything in y begins. */
  ghost predicate Before(x: seq<Section>, y: seq<Section>, files: Files, crcEnable: bool) {
    forall i, j :: 0 <= i < |x| && 0 <= j < |y| ==> PackedEnd(x[i], files, crcEnable) <= y[j].start
  }

  lemma {:induction false} RowAppend(x: seq<Section>, y: seq<Section>, files: Files, crcEnable: bool)
    ensures InRow(x + y, files, crcEnable) <==>
      InRow(x, files, crcEnable) && InRow(y, files, crcEnable) && Before(x, y, files, crcEnable)
  {
    hide PackedEnd;
    var t := x + y;
    assert forall i :: 0 <= i < |x| ==> t[i] == x[i];
    assert forall j :: 0 <= j < |y| ==> t[|x| + j] == y[j];
    if InRow(t, files, crcEnable) {
      forall i, j | 0 <= i < j < |y| ensures PackedEnd(y[i], files, crcEnable) <= y[j].start {
        assert t[|x| + i] == y[i] && t[|x| + j] == y[j];
      }
      forall i, j | 0 <= i < |x| && 0 <= j < |y| ensures PackedEnd(x[i], files, crcEnable) <= y[j].start {
        assert t[i] == x[i] && t[|x| + j] == y[j];
      }
    }
    if InRow(x, files, crcEnable) && InRow(y, files, crcEnable) && Before(x, y, files, crcEnable) {
      forall i, j | 0 <= i < j < |t| ensures PackedEnd(t[i], files, crcEnable) <= t[j].start {
        if i >= |x| { assert t[i] == y[i - |x|] && t[j] == y[j - |x|]; }
        else if j >= |x| { assert t[i] == x[i] && t[j] == y[j - |x|]; }
      }
    }
  }

  lemma {:induction false} BeforeAppend(x: seq<Section>, y: seq<Section>, z: seq<Section>, files: Files, crcEnable: bool)
    ensures Before(x, y + z, files, crcEnable) <==> Before(x, y, files, crcEnable) && Before(x, z, files, crcEnable)
  {
    hide PackedEnd;
    var t := y + z;
    assert forall j :: 0 <= j < |y| ==> t[j] == y[j];
    assert forall j :: 0 <= j < |z| ==> t[|y| + j] == z[j];
    if Before(x, t, files, crcEnable) {
      forall i, j | 0 <= i < |x| && 0 <= j < |z| ensures PackedEnd(x[i], files, crcEnable) <= z[j].start {
        assert t[|y| + j] == z[j];
      }
    }
    if Before(x, y, files, crcEnable) && Before(x, z, files, crcEnable) {
      forall i, j | 0 <= i < |x| && 0 <= j < |t| ensures PackedEnd(x[i], files, crcEnable) <= t[j].start {
        if j >= |y| { assert t[j] == z[j - |y|]; }
      }
    }
  }

  /** A row stays one around s exactly when all before s end in time, and s ends in time for all behind it. */
  lemma {:induction false} RowAround(x: seq<Section>, s: Section, y: seq<Section>, files: Files, crcEnable: bool)
    ensures InRow(x + [s] + y, files, crcEnable) <==>
      InRow(x + y, files, crcEnable) && Before(x, [s], files, crcEnable) && Before([s], y, files, crcEnable)
  {
    hide InRow, Before;
    AloneInRow(s, files, crcEnable);
    Assoc(x, [s], y);
    RowAppend(x, [s] + y, files, crcEnable);
    RowAppend([s], y, files, crcEnable);
    RowAppend(x, y, files, crcEnable);
    BeforeAppend(x, [s], y, files, crcEnable);
  }

  lemma AloneInRow(s: Section, files: Files, crcEnable: bool)
    ensures InRow([s], files, crcEnable)
  {}

  /** An inserted section keeps the row exactly when each earlier listed one is fair to it. */
  lemma {:induction false} InsertInRow(ss: seq<Section>, s: Section, files: Files, crcEnable: bool)
    requires InOrder(ss)
    ensures InRow(Insert(ss, s), files, crcEnable) <==>
      InRow(ss, files, crcEnable) && forall x :: x in ss ==> Fair(x, s, files, crcEnable)
  {
    hide Insert, InRow, Before, Fair;
    var k := InsertAt(ss, s);
    var x, y := ss[..k], ss[k..];
    assert x + y == ss;
    RowAround(x, s, y, files, crcEnable);
    FairBefore(x, s, files, crcEnable);
    FairBehind(s, y, files, crcEnable);
    assert forall z :: z in ss <==> z in x || z in y;
  }

  lemma FairBefore(x: seq<Section>, s: Section, files: Files, crcEnable: bool)
    requires forall i :: 0 <= i < |x| ==> x[i].start <= s.start
    ensures Before(x, [s], files, crcEnable) <==> forall z :: z in x ==> Fair(z, s, files, crcEnable)
  {
    hide PackedSize;
    forall i | 0 <= i < |x|
      ensures PackedEnd(x[i], files, crcEnable) <= [s][0].start <==> Fair(x[i], s, files, crcEnable)
    {}
  }

  lemma FairBehind(s: Section, y: seq<Section>, files: Files, crcEnable: bool)
    requires forall i :: 0 <= i < |y| ==> y[i].start > s.start
    ensures Before([s], y, files, crcEnable) <==> forall z :: z in y ==> Fair(z, s, files, crcEnable)
  {
    hide PackedSize;
    forall i | 0 <= i < |y|
      ensures PackedEnd([s][0], files, crcEnable) <= y[i].start <==> Fair(y[i], s, files, crcEnable)
    {}
  }

  /** Sorted into a row: all pairs of the list are fair. */
  lemma {:induction false} SortedInRow(ss: seq<Section>, files: Files, crcEnable: bool)
    ensures InRow(SortByStart(ss), files, crcEnable) <==> AllFair(ss, files, crcEnable)
  {
    hide SortByStart, Insert, InRow, Fair, AllFair;
    if ss == [] {
      SortNothing();
      NothingInRow(files, crcEnable);
    } else {
      var front, last := ss[..|ss| - 1], ss[|ss| - 1];
      var sorted := SortByStart(front);
      SortTurn(ss);
      SortedInRow(front, files, crcEnable);
      SortSorts(front);
      InsertInRow(sorted, last, files, crcEnable);
      SameMembers(front, sorted);
      FairSnoc(front, last, files, crcEnable);
      assert ss == front + [last];
    }
  }

  lemma SortTurn(ss: seq<Section>)
    requires ss != []
    ensures SortByStart(ss) == Insert(SortByStart(ss[..|ss| - 1]), ss[|ss| - 1])
  {}

  lemma SortNothing()
    ensures SortByStart([]) == []
  {}

  lemma NothingInRow(files: Files, crcEnable: bool)
    ensures InRow([], files, crcEnable) && AllFair([], files, crcEnable)
  {}

  lemma FairSnoc(ss: seq<Section>, s: Section, files: Files, crcEnable: bool)
    ensures AllFair(ss + [s], files, crcEnable) <==>
      AllFair(ss, files, crcEnable) && forall x :: x in ss ==> Fair(x, s, files, crcEnable)
  {
    hide Fair;
    var t := ss + [s];
    assert t[|ss|] == s && forall i :: 0 <= i < |ss| ==> t[i] == ss[i];
    if AllFair(t, files, crcEnable) {
      forall x | x in ss ensures Fair(x, s, files, crcEnable) {
        var i :| 0 <= i < |ss| && ss[i] == x;
        assert t[i] == x;
      }
    }
    if AllFair(ss, files, crcEnable) && forall x :: x in ss ==> Fair(x, s, files, crcEnable) {
      forall i, j | 0 <= i < j < |t| ensures Fair(t[i], t[j], files, crcEnable) {
        assert t[i] == ss[i] && ss[i] in ss;
      }
    }
  }

  lemma SameMembers(ss: seq<Section>, tt: seq<Section>)
    requires multiset(ss) == multiset(tt)
    ensures forall s :: s in ss <==> s in tt
  {
    forall s ensures s in ss <==> s in tt {
      assert s in multiset(ss) <==> s in multiset(tt);
    }
  }

  /**
   A package as it is listed: it is accepted exactly when every section can be packed and, of any two, the
   one that starts first ends before the other, and the one listed first is empty when they start together.
   */
  lemma AcceptedAsListed(sections: seq<Section>, files: Files, crcEnable: bool)
    ensures Build(sections, files, crcEnable).Image? <==>
      Packable(sections, files, crcEnable) && AllFair(sections, files, crcEnable)
  {
    hide Build, PackOne, AllFair, SortByStart, InRow, Apart, Fair;
    var ss := SortByStart(sections);
    AcceptedExactly(sections, files, crcEnable);
    SortSorts(sections);
    SamePackable(sections, ss, files, crcEnable);
    SortedInRow(sections, files, crcEnable);
    if Packable(ss, files, crcEnable) {
      ApartIsInRow(ss, files, crcEnable);
    }
  }

  lemma SamePackable(ss: seq<Section>, tt: seq<Section>, files: Files, crcEnable: bool)
    requires multiset(ss) == multiset(tt)
    ensures Packable(ss, files, crcEnable) <==> Packable(tt, files, crcEnable)
  {
    hide PackOne;
    SameMembers(ss, tt);
    assert forall i :: 0 <= i < |ss| ==> ss[i] in tt;
    assert forall i :: 0 <= i < |tt| ==> tt[i] in ss;
  }

  // ----- Every order of listing

  /** What is asked of two sections when either may be listed first. */
  predicate FairBoth(s: Section, t: Section, files: Files, crcEnable: bool) {
    Fair(s, t, files, crcEnable) && Fair(t, s, files, crcEnable)
  }

  ghost predicate AllFairBoth(ss: seq<Section>, files: Files, crcEnable: bool) {
    forall i, j :: 0 <= i < j < |ss| ==> FairBoth(ss[i], ss[j], files, crcEnable)
  }

  lemma {:induction false} TwoPlaces(ss: seq<Section>, s: Section) returns (i: nat, j: nat)
    requires multiset(ss)[s] >= 2
    ensures i < j < |ss| && ss[i] == ss[j] == s
  {
    var front, last := ss[..|ss| - 1], ss[|ss| - 1];
    assert ss == front + [last];
    if last == s {
      assert s in multiset(front);
      i :| 0 <= i < |front| && front[i] == s;
      j := |ss| - 1;
    } else {
      i, j := TwoPlaces(front, s);
    }
  }

  lemma {:induction false} TwiceInList(ss: seq<Section>, i: nat, j: nat)
    requires i < j < |ss| && ss[i] == ss[j]
    ensures multiset(ss)[ss[i]] >= 2
  {
    var a, b := ss[..j], ss[j..];
    assert ss == a + b;
    assert a[i] == ss[i] && ss[i] in multiset(a);
    assert b[0] == ss[j] && ss[i] in multiset(b);
  }

  /** Pairs in terms of what the list holds, which does not depend on its order. */
  lemma FairInList(ss: seq<Section>, files: Files, crcEnable: bool)
    ensures AllFairBoth(ss, files, crcEnable) <==>
      && (forall s, t | s in ss && t in ss && s != t :: FairBoth(s, t, files, crcEnable))
      && (forall s | multiset(ss)[s] >= 2 :: FairBoth(s, s, files, crcEnable))
  {
    hide Fair;
    if AllFairBoth(ss, files, crcEnable) {
      forall s, t | s in ss && t in ss && s != t ensures FairBoth(s, t, files, crcEnable) {
        var i :| 0 <= i < |ss| && ss[i] == s;
        var j :| 0 <= j < |ss| && ss[j] == t;
      }
      forall s | multiset(ss)[s] >= 2 ensures FairBoth(s, s, files, crcEnable) {
        var i, j := TwoPlaces(ss, s);
      }
    } else {
      var i, j :| 0 <= i < j < |ss| && !FairBoth(ss[i], ss[j], files, crcEnable);
      if ss[i] == ss[j] { TwiceInList(ss, i, j); }
    }
  }

  lemma FairInAnyOrder(ss: seq<Section>, tt: seq<Section>, files: Files, crcEnable: bool)
    requires multiset(ss) == multiset(tt)
    ensures AllFairBoth(ss, files, crcEnable) <==> AllFairBoth(tt, files, crcEnable)
  {
    hide AllFairBoth, FairBoth;
    FairInList(ss, files, crcEnable);
    FairInList(tt, files, crcEnable);
    SameMembers(ss, tt);
  }

  /** The same list with the j-th section moved to the front. */
  lemma MovedToFront(ss: seq<Section>, i: nat, j: nat) returns (tt: seq<Section>, k: nat)
    requires i < j < |ss|
    ensures multiset(tt) == multiset(ss) && 0 < k < |tt| && tt[0] == ss[j] && tt[k] == ss[i]
  {
    tt, k := [ss[j]] + (ss[..j] + ss[j + 1..]), i + 1;
    assert ss == ss[..j] + ([ss[j]] + ss[j + 1..]);
  }

  /**
   A package is accepted in every order of listing exactly when every section can be packed and, of any
   two, the one that starts first ends before the other, and both are empty when they start together.
   */
  lemma AcceptedInEveryOrder(sections: seq<Section>, files: Files, crcEnable: bool)
    ensures (forall tt | multiset(tt) == multiset(sections) :: Build(tt, files, crcEnable).Image?) <==>
      Packable(sections, files, crcEnable) && AllFairBoth(sections, files, crcEnable)
  {
    hide Build, Fair, Packable;
    if Packable(sections, files, crcEnable) && AllFairBoth(sections, files, crcEnable) {
      forall tt | multiset(tt) == multiset(sections) ensures Build(tt, files, crcEnable).Image? {
        SamePackable(sections, tt, files, crcEnable);
        FairInAnyOrder(sections, tt, files, crcEnable);
        AcceptedAsListed(tt, files, crcEnable);
      }
    }
    if forall tt | multiset(tt) == multiset(sections) :: Build(tt, files, crcEnable).Image? {
      AcceptedAsListed(sections, files, crcEnable);
      forall i, j | 0 <= i < j < |sections| ensures FairBoth(sections[i], sections[j], files, crcEnable) {
        var tt, k := MovedToFront(sections, i, j);
        AcceptedAsListed(tt, files, crcEnable);
        assert Fair(tt[0], tt[k], files, crcEnable);
      }
    }
  }

  ghost predicate Disjoint(s: Section, t: Section, files: Files, crcEnable: bool) {
    PackedEnd(s, files, crcEnable) <= t.start || PackedEnd(t, files, crcEnable) <= s.start
  }

  /**
   When no firmware is empty, the order never matters: a package is accepted exactly when every section
   can be packed and no two overlap.
   */
  lemma AcceptedWhenDisjoint(sections: seq<Section>, files: Files, crcEnable: bool)
    requires forall s :: s in sections && s.firmware in files ==> Packed(files[s.firmware], crcEnable) != []
    ensures Build(sections, files, crcEnable).Image? <==>
      && Packable(sections, files, crcEnable)
      && forall i, j :: 0 <= i < j < |sections| ==> Disjoint(sections[i], sections[j], files, crcEnable)
  {
    hide Build, Packed;
    AcceptedAsListed(sections, files, crcEnable);
    if Packable(sections, files, crcEnable) {
      forall i | 0 <= i < |sections| ensures PackedSize(sections[i], files, crcEnable) > 0 {
        assert PackOne(sections[i], files, crcEnable).Image? && sections[i] in sections;
      }
      hide Packable, PackOne, PackedSize;
      forall i, j | 0 <= i < j < |sections|
        ensures Fair(sections[i], sections[j], files, crcEnable) <==> Disjoint(sections[i], sections[j], files, crcEnable)
      {}
    }
  }

  /** With an empty firmware the order of the list can decide. */
  lemma EmptySectionOrder()
    ensures var a, b := Section(0, 1, "app.bin"), Section(0, 0, "bootloader.bin");
      var files := map["app.bin" := [7], "bootloader.bin" := []];
      Build([b, a], files, false).Image? && Build([a, b], files, false) == Overlap
  {
    hide Build, PackOne, Packed, Packable, Fair;
    var a, b := Section(0, 1, "app.bin"), Section(0, 0, "bootloader.bin");
    var files: Files := map["app.bin" := [7], "bootloader.bin" := []];
    EmptyFair(a, b, files);
    BothPackable(a, b, files);
    AcceptedAsListed([b, a], files, false);
    AcceptedAsListed([a, b], files, false);
    assert !Fair([a, b][0], [a, b][1], files, false);
    RefusedIsOverlap([a, b], files, false);
  }

  lemma EmptyFair(a: Section, b: Section, files: Files)
    requires a == Section(0, 1, "app.bin") && b == Section(0, 0, "bootloader.bin")
    requires files == map["app.bin" := [7], "bootloader.bin" := []]
    ensures Fair(b, a, files, false) && !Fair(a, b, files, false)
  {}

  lemma BothPackable(a: Section, b: Section, files: Files)
    requires a == Section(0, 1, "app.bin") && b == Section(0, 0, "bootloader.bin")
    requires files == map["app.bin" := [7], "bootloader.bin" := []]
    ensures Packable([a, b], files, false) && Packable([b, a], files, false)
  {
    assert PackOne(a, files, false) == Image([7]) && PackOne(b, files, false) == Image([]);
  }

  /** What can be packed and is refused overlaps. */
  lemma RefusedIsOverlap(sections: seq<Section>, files: Files, crcEnable: bool)
    requires Packable(sections, files, crcEnable) && !Build(sections, files, crcEnable).Image?
    ensures Build(sections, files, crcEnable) == Overlap
  {
    hide Packable, SortByStart, FirstFault, PlacedAt, Layout;
    var ss := SortByStart(sections);
    SortSorts(sections);
    SamePackable(sections, ss, files, crcEnable);
    NoFault(ss, files, crcEnable);
  }
}
