/** Bitwise exclusive-or and inclusive-or on unbounded naturals, bit by bit. */
module Bits {
  import opened Common
  import opened Arith

  function BitXor(a: nat, b: nat): nat {
    if a == 0 && b == 0 then 0 else 2 * BitXor(a / 2, b / 2) + (a + b) % 2
  }

  function BitOr(a: nat, b: nat): nat {
    if a == 0 && b == 0 then 0 else 2 * BitOr(a / 2, b / 2) + (if a % 2 == 1 || b % 2 == 1 then 1 else 0)
  }

  /** The lowest bit and the rest. */
  lemma XorUnfold(a: nat, b: nat)
    ensures BitXor(a, b) / 2 == BitXor(a / 2, b / 2) && BitXor(a, b) % 2 == (a + b) % 2
  {}

  lemma XorFold(q: nat, r: nat, q': nat, r': nat)
    requires r < 2 && r' < 2
    ensures BitXor(2 * q + r, 2 * q' + r') == 2 * BitXor(q, q') + (r + r') % 2
  {
    hide BitXor;
    var a, b := 2 * q + r, 2 * q' + r';
    DivModUnique(a, q, r, 2);
    DivModUnique(b, q', r', 2);
    XorUnfold(a, b);
    Parity(a, b);
    var x := BitXor(a, b);
    assert x == 2 * (x / 2) + x % 2;
  }

  lemma {:induction false} XorZero(a: nat)
    ensures BitXor(a, 0) == a && BitXor(0, a) == a
  {
    if a > 0 { XorZero(a / 2); }
  }

  lemma {:induction false} XorSelf(a: nat)
    ensures BitXor(a, a) == 0
  {
    if a > 0 {
      XorSelf(a / 2);
      DivModUnique(a + a, a, 0, 2);
    }
  }

  lemma {:induction false} XorCommutes(a: nat, b: nat)
    ensures BitXor(a, b) == BitXor(b, a)
  {
    if a > 0 || b > 0 { XorCommutes(a / 2, b / 2); }
  }

  lemma {:induction false} XorAssociates(a: nat, b: nat, c: nat)
    ensures BitXor(BitXor(a, b), c) == BitXor(a, BitXor(b, c))
  {
    if a > 0 || b > 0 || c > 0 {
      hide BitXor;
      XorAssociates(a / 2, b / 2, c / 2);
      XorUnfold(a, b);
      XorUnfold(b, c);
      XorUnfold(BitXor(a, b), c);
      XorUnfold(a, BitXor(b, c));
      ThreeParities(a, b, c, BitXor(a, b), BitXor(b, c));
      HalvesTell(BitXor(BitXor(a, b), c), BitXor(a, BitXor(b, c)));
    }
  }

  lemma HalvesTell(x: nat, y: nat)
    requires x / 2 == y / 2 && x % 2 == y % 2
    ensures x == y
  {}

  lemma ThreeParities(a: nat, b: nat, c: nat, ab: nat, bc: nat)
    requires ab % 2 == (a + b) % 2 && bc % 2 == (b + c) % 2
    ensures (ab + c) % 2 == (a + bc) % 2
  {
    ThreeBits(a % 2, b % 2, c % 2);
    Parity(a, b);
    Parity(b, c);
    Parity(ab, c);
    Parity(a, bc);
  }

  lemma Parity(a: nat, b: nat)
    ensures (a + b) % 2 == (a % 2 + b % 2) % 2
  {}

  lemma ThreeBits(a: nat, b: nat, c: nat)
    requires a < 2 && b < 2 && c < 2
    ensures ((a + b) % 2 + c) % 2 == (a + (b + c) % 2) % 2
  {}

  /** Undoing a mask. */
  lemma {:induction false} XorTwice(a: nat, b: nat)
    ensures BitXor(BitXor(a, b), b) == a
  {
    XorAssociates(a, b, b);
    XorSelf(b);
    XorZero(a);
  }

  lemma {:induction false} XorBound(a: nat, b: nat, k: nat)
    requires a < Pow(2, k) && b < Pow(2, k)
    ensures BitXor(a, b) < Pow(2, k)
  {
    if k > 0 && (a > 0 || b > 0) {
      XorBound(a / 2, b / 2, k - 1);
    }
  }

  /** Bits below 2^k and above it are joined independently. */
  lemma {:induction false} XorSplit(h: nat, l: nat, h': nat, l': nat, k: nat)
    requires l < Pow(2, k) && l' < Pow(2, k)
    ensures BitXor(Pow(2, k) * h + l, Pow(2, k) * h' + l') == Pow(2, k) * BitXor(h, h') + BitXor(l, l')
  {
    hide BitXor, Pow;
    if k == 0 {
      SplitNothing(h, l, h', l');
    } else {
      var p := Pow(2, k - 1);
      TwicePow(k);
      XorSplit(h, l / 2, h', l' / 2, k - 1);
      XorSplitTurn(p, Pow(2, k), h, l, h', l', p * h + l / 2, p * h' + l' / 2);
    }
  }

  lemma SplitNothing(h: nat, l: nat, h': nat, l': nat)
    requires l < Pow(2, 0) && l' < Pow(2, 0)
    ensures BitXor(Pow(2, 0) * h + l, Pow(2, 0) * h' + l') == Pow(2, 0) * BitXor(h, h') + BitXor(l, l')
  {
    assert Pow(2, 0) == 1 && l == l' == 0;
    assert BitXor(0, 0) == 0;
  }

  lemma TwicePow(k: nat)
    requires k > 0
    ensures Pow(2, k) == 2 * Pow(2, k - 1)
  {}

  lemma {:induction false} XorSplitTurn(p: nat, q: nat, h: nat, l: nat, h': nat, l': nat, x: nat, x': nat)
    requires q == 2 * p
    requires x == p * h + l / 2 && x' == p * h' + l' / 2 && BitXor(x, x') == p * BitXor(h, h') + BitXor(l / 2, l' / 2)
    ensures BitXor(2 * x + l % 2, 2 * x' + l' % 2) == q * BitXor(h, h') + BitXor(l, l')
    ensures 2 * x + l % 2 == q * h + l && 2 * x' + l' % 2 == q * h' + l'
  {
    hide BitXor;
    Half(p, h, l);
    Half(p, h', l');
    XorFold(x, l % 2, x', l' % 2);
    XorUnfold(l, l');
    Parity(l, l');
    Half(p, BitXor(h, h'), BitXor(l, l'));
  }

  lemma Half(p: nat, h: nat, l: nat)
    ensures (2 * p) * h + l == 2 * (p * h + l / 2) + l % 2
  {}

  /** Exclusive-or commutes with taking the low k bits. */
  lemma {:induction false} XorMod(a: nat, b: nat, k: nat)
    ensures BitXor(a, b) % Pow(2, k) == BitXor(a % Pow(2, k), b % Pow(2, k))
  {
    var p := Pow(2, k);
    DivFacts(a, p);
    DivFacts(b, p);
    XorSplit(a / p, a % p, b / p, b % p, k);
    XorBound(a % p, b % p, k);
    DivModUnique(BitXor(a, b), BitXor(a / p, b / p), BitXor(a % p, b % p), p);
  }

  /** An exclusive-or on bytes is a byte. */
  function XorByte(a: byte, b: byte): byte {
    assert Pow(2, 8) == 256 by { PowEight(); }
    XorBound(a, b, 8);
    BitXor(a, b)
  }

  lemma {:induction false} OrBound(a: nat, b: nat, k: nat)
    requires a < Pow(2, k) && b < Pow(2, k)
    ensures BitOr(a, b) < Pow(2, k)
  {
    if k > 0 && (a > 0 || b > 0) {
      OrBound(a / 2, b / 2, k - 1);
    }
  }

  /** The low bits of the first argument stay where the second has none. */
  lemma {:induction false} OrKeepsLow(a: nat, b: nat, k: nat)
    requires b % Pow(2, k) == 0
    ensures BitOr(a, b) % Pow(2, k) == a % Pow(2, k)
  {
    if k > 0 {
      var p := Pow(2, k - 1);
      assert Pow(2, k) == 2 * p;
      ModHalf(b, p);
      OrKeepsLow(a / 2, b / 2, k - 1);
      OrUnfold(a, b);
      ModHalf(BitOr(a, b), p);
      ModHalf(a, p);
    } else {
      assert Pow(2, 0) == 1;
    }
  }

  lemma OrUnfold(a: nat, b: nat)
    ensures BitOr(a, b) / 2 == BitOr(a / 2, b / 2)
    ensures BitOr(a, b) % 2 == if a % 2 == 1 || b % 2 == 1 then 1 else 0
  {}

  lemma {:induction false} ModHalf(x: nat, p: nat)
    requires p > 0
    ensures x % (2 * p) == 2 * (x / 2 % p) + x % 2
  {
    var q, r := x / 2 / p, x / 2 % p;
    assert x / 2 == p * q + r;
    assert x == (2 * p) * q + (2 * r + x % 2);
    DivModUnique(x, q, 2 * r + x % 2, 2 * p);
  }

  function OrByte(a: byte, b: byte): byte {
    assert Pow(2, 8) == 256 by { PowEight(); }
    OrBound(a, b, 8);
    BitOr(a, b)
  }

  lemma PowEight()
    ensures Pow(2, 8) == 256 && Pow(2, 16) == 0x1_0000 && Pow(2, 4) == 16 && Pow(2, 7) == 128
  {
    assert Pow(2, 4) == 16;
    assert Pow(2, 8) == 16 * Pow(2, 4);
    assert Pow(2, 12) == 16 * Pow(2, 8);
    assert Pow(2, 16) == 16 * Pow(2, 12);
  }
}
