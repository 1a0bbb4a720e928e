/**
 What the checksum of the packer is: the remainder of the message, divided as a polynomial over the field of
 two elements by x^16 + x^15 + x^2 + 1.
 */
module CrcRemainder {
  import opened Common
  import opened Arith
  import opened Bits
  import opened ImagePacker

  /** The divisor, bit 16 first. */
  const DIVISOR: nat := 0x1_8005

  /** The product of polynomials whose coefficients are the bits of q and g. */
  function Product(q: nat, g: nat): nat {
    if q == 0 then 0 else BitXor(2 * Product(q / 2, g), if q % 2 == 1 then g else 0)
  }

  /** A message as a number, first byte highest. */
  function Message(s: seq<byte>): nat {
    if s == [] then 0 else Message(s[..|s| - 1]) * 0x100 + s[|s| - 1]
  }

  lemma ProductTurn(q: nat, h: nat, g: nat)
    requires h < 2
    ensures Product(2 * q + h, g) == BitXor(2 * Product(q, g), if h == 1 then g else 0)
  {
    assert (2 * q + h) / 2 == q && (2 * q + h) % 2 == h;
    assert BitXor(0, 0) == 0;
  }

  /** Shifting both sides. */
  lemma {:induction false} ShiftXor(a: nat, b: nat, k: nat)
    ensures BitXor(Pow(2, k) * a, Pow(2, k) * b) == Pow(2, k) * BitXor(a, b)
  {
    XorZero(0);
    XorSplit(a, 0, b, 0, k);
  }

  lemma TwiceXor(a: nat, b: nat)
    ensures BitXor(2 * a, 2 * b) == 2 * BitXor(a, b)
  {
    hide BitXor;
    assert Pow(2, 1) == 2 * Pow(2, 0) == 2;
    ShiftXor(a, b, 1);
  }

  /** Bits that do not meet are added. */
  lemma {:induction false} LowBits(h: nat, l: nat, k: nat)
    requires l < Pow(2, k)
    ensures BitXor(Pow(2, k) * h, l) == Pow(2, k) * h + l
  {
    hide BitXor, Pow;
    XorZero(h);
    XorZero(l);
    XorSplit(h, 0, 0, l, k);
  }

  /** One step of the register is doubling, and subtracting the divisor when bit 16 comes up. */
  lemma {:induction false} BitDivides(r: uint16)
    ensures 2 * r == BitXor(Bit16(r), if r >= 0x8000 then DIVISOR else 0)
  {
    hide BitXor;
    XorZero(2 * r);
    if r >= 0x8000 {
      var low := 2 * r - 0x1_0000;
      DivModUnique(2 * r, 1, low, 0x1_0000);
      Divisor(low);
    } else {
      DivModUnique(2 * r, 0, 2 * r, 0x1_0000);
      XorZero(Bit16(r));
    }
  }

  lemma {:induction false} Divisor(low: nat)
    requires low < 0x1_0000
    ensures BitXor(BitXor(low, POLY), DIVISOR) == 0x1_0000 + low
  {
    hide BitXor;
    PowEight();
    LowBits(1, POLY, 16);
    LowBits(1, low, 16);
    assert DIVISOR == BitXor(0x1_0000, POLY);
    XorCommutes(0x1_0000, POLY);
    XorAssociates(low, POLY, BitXor(POLY, 0x1_0000));
    XorAssociates(POLY, POLY, 0x1_0000);
    XorSelf(POLY);
    XorZero(0x1_0000);
    XorCommutes(low, 0x1_0000);
  }

  /** k steps: the register times 2^k is a multiple of the divisor and the new register. */
  lemma {:induction false} BitsDivide(r: uint16, k: nat) returns (q: nat)
    ensures Pow(2, k) * r == BitXor(Product(q, DIVISOR), Bits16(r, k))
  {
    hide BitXor, Bit16, Product, Pow, Bits16;
    if k == 0 {
      q := 0;
      NoSteps(r);
      XorZero(r);
    } else {
      var q' := BitsDivide(r, k - 1);
      var r' := Bits16(r, k - 1);
      var h := if r' >= 0x8000 then 1 else 0;
      q := 2 * q' + h;
      var d := if h == 1 then DIVISOR else 0;
      OneStep(r, k);
      ProductTurn(q', h, DIVISOR);
      BitDivides(r');
      TwiceXor(Product(q', DIVISOR), r');
      XorCommutes(Bit16(r'), d);
      XorAssociates(2 * Product(q', DIVISOR), d, Bit16(r'));
    }
  }

  lemma NoSteps(r: uint16)
    ensures Product(0, DIVISOR) == 0 && Bits16(r, 0) == r && Pow(2, 0) == 1
  {}

  lemma OneStep(r: uint16, k: nat)
    requires k > 0
    ensures Bits16(r, k) == Bit16(Bits16(r, k - 1)) && Pow(2, k) * r == 2 * (Pow(2, k - 1) * r)
  {
    hide Bit16;
    assert Pow(2, k) == 2 * Pow(2, k - 1);
  }

  /** Products with one divisor add up. */
  lemma {:induction false} ProductsAdd(a: nat, b: nat, g: nat)
    ensures BitXor(Product(a, g), Product(b, g)) == Product(BitXor(a, b), g)
  {
    hide BitXor, Product;
    if a == 0 && b == 0 {
      XorZero(0);
      NoProduct(g);
    } else {
      ProductsAdd(a / 2, b / 2, g);
      var x, y := Product(a / 2, g), Product(b / 2, g);
      var c, d := if a % 2 == 1 then g else 0, if b % 2 == 1 then g else 0;
      ProductTurn(a / 2, a % 2, g);
      ProductTurn(b / 2, b % 2, g);
      Swap(2 * x, c, 2 * y, d);
      TwiceXor(x, y);
      LowCoefficients(a % 2, b % 2, g);
      Halves(a, b);
      ProductTurn(BitXor(a / 2, b / 2), BitXor(a, b) % 2, g);
    }
  }

  lemma NoProduct(g: nat)
    ensures Product(0, g) == 0
  {}

  lemma LowCoefficients(a: nat, b: nat, g: nat)
    requires a < 2 && b < 2
    ensures BitXor(if a == 1 then g else 0, if b == 1 then g else 0) == if (a + b) % 2 == 1 then g else 0
  {
    hide BitXor;
    XorZero(g);
    XorZero(0);
    XorSelf(g);
  }

  lemma Halves(a: nat, b: nat)
    ensures BitXor(a, b) == 2 * BitXor(a / 2, b / 2) + BitXor(a, b) % 2
    ensures BitXor(a, b) % 2 == (a % 2 + b % 2) % 2
  {
    hide BitXor;
    XorUnfold(a, b);
    Parity(a, b);
  }

  lemma Swap(a: nat, b: nat, c: nat, d: nat)
    ensures BitXor(BitXor(a, b), BitXor(c, d)) == BitXor(BitXor(a, c), BitXor(b, d))
  {
    hide BitXor;
    XorAssociates(a, b, BitXor(c, d));
    XorAssociates(b, c, d);
    XorCommutes(b, c);
    XorAssociates(c, b, d);
    XorAssociates(a, c, BitXor(b, d));
  }

  lemma {:induction false} ProductShift(q: nat, g: nat, k: nat)
    ensures Product(Pow(2, k) * q, g) == Pow(2, k) * Product(q, g)
  {
    hide BitXor, Product, Pow;
    if k == 0 {
      PowZero();
    } else {
      ProductShift(q, g, k - 1);
      TwicePow(k);
      var p := Pow(2, k - 1);
      assert Pow(2, k) * q == 2 * (p * q) + 0;
      ProductTurn(p * q, 0, g);
      XorZero(2 * Product(p * q, g));
      assert Pow(2, k) * Product(q, g) == 2 * (p * Product(q, g));
    }
  }

  lemma PowZero()
    ensures Pow(2, 0) == 1
  {}

  /**
   The register after a message is the remainder of the start value and the message, shifted up by 16 bits,
   on division by x^16 + x^15 + x^2 + 1: some multiple of the divisor and the register make them up.
   */
  lemma {:induction false} CrcIsRemainder(start: uint16, s: seq<byte>) returns (q: nat)
    ensures BitXor(Pow(2, 8 * |s|) * start, 0x1_0000 * Message(s)) == BitXor(Product(q, DIVISOR), Crc16(start, s))
  {
    hide BitXor, Product, Pow, Byte16, Crc16, Message;
    if s == [] {
      q := 0;
      NoBytes(start);
    } else {
      var front, v := s[..|s| - 1], s[|s| - 1];
      var q' := CrcIsRemainder(start, front);
      q := CrcTurn(Pow(2, 8 * |front|) * start, Message(front), q', Crc16(start, front), v);
      LastByte(start, s);
    }
  }

  lemma NoBytes(start: uint16)
    ensures Pow(2, 0) == 1 && Message([]) == 0 && Product(0, DIVISOR) == 0 && Crc16(start, []) == start
    ensures BitXor(start, 0) == BitXor(0, start)
  {
    XorZero(start);
  }

  lemma LastByte(start: uint16, s: seq<byte>)
    requires s != []
    ensures Message(s) == Message(s[..|s| - 1]) * 0x100 + s[|s| - 1]
    ensures Crc16(start, s) == Byte16(Crc16(start, s[..|s| - 1]), s[|s| - 1])
    ensures Pow(2, 8 * |s|) * start == 0x100 * (Pow(2, 8 * (|s| - 1)) * start)
  {
    hide Byte16, Pow;
    EightMore(8 * (|s| - 1));
  }

  lemma EightMore(k: nat)
    ensures Pow(2, k + 8) == 0x100 * Pow(2, k)
  {
    assert Pow(2, k + 4) == 16 * Pow(2, k) by { assert Pow(2, k + 2) == 4 * Pow(2, k); }
    assert Pow(2, k + 8) == 16 * Pow(2, k + 4) by { assert Pow(2, k + 6) == 4 * Pow(2, k + 4); }
  }

  /** One byte more. */
  lemma {:induction false} CrcTurn(begin: nat, m: nat, q': nat, r: uint16, v: byte) returns (q: nat)
    requires BitXor(begin, 0x1_0000 * m) == BitXor(Product(q', DIVISOR), r)
    ensures BitXor(0x100 * begin, 0x1_0000 * (m * 0x100 + v)) == BitXor(Product(q, DIVISOR), Byte16(r, v))
  {
    hide BitXor, Product, Pow, Bits16;
    PowEight();
    var x := 0x1_0000 * m;
    var q1 := BitsDivide(Xor16(r, v * 0x100), 8);
    q := BitXor(0x100 * q', q1);
    var next := Byte16(r, v);
    // the message: shifted, and the byte put in
    MessageBits(m, v);
    ShiftXor(begin, x, 8);
    ShiftXor(Product(q', DIVISOR), r, 8);
    XorAssociates(0x100 * begin, 0x100 * x, 0x1_0000 * v);
    // the register: shifted, the byte put in, and divided
    ShiftXor(r, v * 0x100, 8);
    XorAssociates(0x100 * Product(q', DIVISOR), 0x100 * r, 0x1_0000 * v);
    XorAssociates(0x100 * Product(q', DIVISOR), Product(q1, DIVISOR), next);
    ProductShift(q', DIVISOR, 8);
    ProductsAdd(0x100 * q', q1, DIVISOR);
  }

  lemma {:induction false} MessageBits(m: nat, v: byte)
    ensures 0x1_0000 * (m * 0x100 + v) == BitXor(0x100 * (0x1_0000 * m), 0x1_0000 * v)
  {
    hide BitXor, Pow;
    PowEight();
    LowBits(m, v, 8);
    ShiftXor(0x100 * m, v, 16);
  }
}
