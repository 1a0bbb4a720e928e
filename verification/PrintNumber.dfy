/**
 Printing integers in any base: `printNumber`, and `printULLNumber`, which extracts digits from
 16-bit chunks and must agree with the plain division loop.
 */
module PrintNumber {
  import opened Common
  import opened Arith

  // ----- What a numeral is

  /** The digits of n, most significant first. */
  function Digits(n: nat, base: nat): (ds: seq<nat>)
    requires base >= 2
    ensures |ds| > 0 && forall i :: 0 <= i < |ds| ==> ds[i] < base
    decreases n
  {
    DivFacts(n, base);
    if n < base then [n] else Digits(n / base, base) + [n % base]
  }

  function Value(ds: seq<nat>, base: nat): nat {
    if ds == [] then 0 else Value(ds[..|ds| - 1], base) * base + ds[|ds| - 1]
  }

  /** Digits are a numeral of n, without a leading zero unless n is 0. */
  lemma {:induction false} DigitsDenote(n: nat, base: nat)
    requires base >= 2
    ensures Value(Digits(n, base), base) == n
    ensures n > 0 ==> Digits(n, base)[0] != 0
  {
    hide Digits, Value;
    LastDigit(n, base);
    DivFacts(n, base);
    var ds, q := Digits(n, base), n / base;
    ValueSnoc(ds, base);
    if q > 0 {
      DigitsDenote(q, base);
      assert q * base == base * q;
    } else {
      ValueOfNone(base);
      assert ds[..0] == [];
    }
  }

  lemma ValueSnoc(ds: seq<nat>, base: nat)
    requires ds != []
    ensures Value(ds, base) == Value(ds[..|ds| - 1], base) * base + ds[|ds| - 1]
  {}

  lemma ValueOfNone(base: nat)
    ensures Value([], base) == 0
  {}

  /** They are the only such numeral. */
  lemma {:induction false} DigitsUnique(ds: seq<nat>, base: nat)
    requires base >= 2 && ds != [] && forall i :: 0 <= i < |ds| ==> ds[i] < base
    requires |ds| > 1 ==> ds[0] != 0
    ensures ds == Digits(Value(ds, base), base)
  {
    var hi, lo := ds[..|ds| - 1], ds[|ds| - 1];
    var v := Value(hi, base);
    if hi == [] {
      assert Value(ds, base) == 0 * base + lo;
      assert ds == [lo];
    } else {
      DigitsUnique(hi, base);
      assert v == 0 ==> hi == [0];
      assert v > 0;
      assert base * v == v * base;
      MulMono(base, 1, v);
      DivModUnique(v * base + lo, v, lo, base);
      assert ds == hi + [lo];
    }
  }

  /** A number below 2^k has at most k digits. */
  lemma {:induction false} DigitsBound(n: nat, base: nat, k: nat)
    requires base >= 2 && k >= 1 && n < Pow(2, k)
    ensures |Digits(n, base)| <= k
  {
    hide Digits, Pow;
    DigitsOnce(n, base);
    if n >= base {
      PowOfTwo(k);
      QuotientBelow(n, base, Pow(2, k - 1));
      DigitsBound(n / base, base, k - 1);
    }
  }

  lemma DigitsOnce(n: nat, base: nat)
    requires base >= 2
    ensures |Digits(n, base)| == if n < base then 1 else |Digits(n / base, base)| + 1
  {}

  lemma PowOfTwo(k: nat)
    requires k >= 1
    ensures Pow(2, k) == 2 * Pow(2, k - 1) && (k == 1 ==> Pow(2, k) == 2)
  {}

  lemma QuotientBelow(n: nat, base: nat, p: nat)
    requires base >= 2 && n < 2 * p
    ensures 0 <= n / base < p
  {
    DivFacts(n, base);
    QuotientTimes(n, n / base, n % base, base);
  }

  lemma QuotientTimes(n: nat, q: nat, r: nat, base: nat)
    requires base >= 2 && n == base * q + r
    ensures 2 * q <= n
  {
    MulMono(q, 2, base);
  }

  // ----- Digits as characters

  /** The value that d has as a `char`, which the build makes signed. */
  function SignedChar(d: nat): int {
    if d % 256 < 128 then d % 256 else d % 256 - 256
  }

  /** The character of a digit. From 128 on a digit is negative as a `char`, and so below 10. */
  function DigitChar(d: nat): byte {
    var c := SignedChar(d);
    (if c < 10 then c + 48 else c + 65 - 10) % 256
  }

  function Text(ds: seq<nat>): (t: seq<byte>)
    ensures |t| == |ds|
  {
    seq(|ds|, i requires 0 <= i < |ds| => DigitChar(ds[i]))
  }

  // bases 0 and 1 mean 10
  function EffectiveBase(base: byte): (b: nat)
    ensures 2 <= b < 256
  {
    if base < 2 then 10 else base
  }

  /**
   `printNumber`: the buffer is filled from its end, and the text is written as a C string.
   */
  method Print32(n: uint32, base: byte) returns (written: seq<byte>)
    ensures written == CString(Text(Digits(n, if base < 2 then 10 else base)))
  {
    PowerOfTwo();
    written := DivisionLoop(n, base, 32);
  }

  /** The reference `printULLNumber`, kept as a comment in the source. */
  method PrintReference64(n: uint64, base: byte) returns (written: seq<byte>)
    ensures written == CString(Text(Digits(n, if base < 2 then 10 else base)))
  {
    PowerOfTwo();
    written := DivisionLoop(n, base, 64);
  }

  lemma PowerOfTwo()
    ensures Pow(2, 32) == 0x1_0000_0000 && Pow(2, 64) == 0x1_0000_0000_0000_0000
  {
    assert Pow(2, 8) == 256;
    assert Pow(2, 16) == 65536;
    assert Pow(2, 24) == 0x100_0000;
    assert Pow(2, 32) == 0x1_0000_0000;
    assert Pow(2, 40) == 0x100_0000_0000;
    assert Pow(2, 48) == 0x1_0000_0000_0000;
    assert Pow(2, 56) == 0x100_0000_0000_0000;
  }

  /** One turn of the division loop peels off the last digit. */
  lemma {:induction false} LastDigit(n: nat, base: nat)
    requires base >= 2
    ensures var ds := Digits(n, base);
      && ds[|ds| - 1] == n % base && 0 <= n / base
      && (n / base == 0 <==> |ds| == 1)
      && (n / base > 0 ==> n / base < n && Digits(n / base, base) == ds[..|ds| - 1])
  {
    DivFacts(n, base);
    if n < base { DivModUnique(n, 0, n, base); }
  }

  /** The buffer holds the last digits of ds, as text. */
  ghost predicate Filled(part: seq<byte>, ds: seq<nat>, count: nat) {
    && count <= |ds| && |part| == count
    && forall i :: 0 <= i < count ==> part[i] == DigitChar(ds[|ds| - count + i])
  }

  lemma NothingFilled(buf: seq<byte>, bits: nat, ds: seq<nat>)
    requires bits <= |buf|
    ensures Filled(buf[bits..bits], ds, 0)
  {}

  lemma FillOne(buf: seq<byte>, str: nat, bits: nat, ds: seq<nat>)
    requires 0 < str <= bits <= |buf| && Filled(buf[str..bits], ds, bits - str) && bits - str < |ds|
    ensures Filled(buf[str - 1 := DigitChar(ds[|ds| - (bits - str) - 1])][str - 1..bits], ds, bits - str + 1)
  {
    hide DigitChar;
    var c, part := DigitChar(ds[|ds| - (bits - str) - 1]), buf[str..bits];
    assert buf[str - 1 := c][str - 1..bits] == [c] + part;
  }

  lemma AllFilled(buf: seq<byte>, str: nat, bits: nat, ds: seq<nat>)
    requires str <= bits && |buf| == bits + 1 && buf[bits] == 0 && Filled(buf[str..bits], ds, |ds|)
    ensures buf[str..] == Text(ds) + [0]
  {
    hide DigitChar;
    assert buf[str..bits] == Text(ds);
    assert buf[str..] == buf[str..bits] + [0];
  }

  /** The division loop over a buffer of `bits` characters and a terminator. */
  method DivisionLoop(n0: nat, base0: byte, bits: nat) returns (written: seq<byte>)
    requires bits >= 1 && n0 < Pow(2, bits)
    ensures written == CString(Text(Digits(n0, if base0 < 2 then 10 else base0)))
  {
    hide Digits, DigitChar, Pow, CString, Text, Filled;
    var buf := new byte[bits + 1];
    var str := bits;
    buf[str] := 0;
    var base: nat := if base0 < 2 then 10 else base0;
    var n: int := n0;
    ghost var ds := Digits(n0, base);
    DigitsBound(n0, base, bits);
    ghost var left := ds;
    NothingFilled(buf[..], bits, ds);
    while true
      invariant n >= 0 && left == Digits(n, base)
      invariant 0 <= str <= bits && buf[bits] == 0
      invariant bits - str + |left| == |ds| && left == ds[..|left|]
      invariant Filled(buf[str..bits], ds, bits - str)
      decreases n
    {
      LastDigit(n, base);
      FillOne(buf[..], str, bits, ds);
      var c := n % base;
      n := n / base;
      str := str - 1;
      buf[str] := DigitChar(c);
      if n == 0 { break; }
      left := left[..|left| - 1];
    }
    AllFilled(buf[..], str, bits, ds);
    CStringWhole(Text(ds));
    written := CString(buf[str..]);
  }

  // ----- The fast version

  function Reverse(s: seq<nat>): (r: seq<nat>)
    ensures |r| == |s|
  {
    if s == [] then [] else Reverse(s[1..]) + [s[0]]
  }

  /** The k low digits of r, leading zeros included. */
  function Chunk(r: nat, base: nat, k: nat): (ds: seq<nat>)
    requires base >= 2
    ensures |ds| == k
  {
    DivFacts(r, base);
    if k == 0 then [] else Chunk(r / base, base, k - 1) + [r % base]
  }

  /** Dividing by b and then by p' is dividing by b * p', remainders included. */
  lemma {:induction false} NestedDivision(n: nat, b: nat, p': nat, p: nat)
    requires b >= 2 && p' > 0 && p == b * p' && p > 0
    ensures (n / b) / p' == n / p && (n / b) % p' == (n % p) / b && n % b == (n % p) % b
  {
    DivFacts(n, b);
    DivFacts(n / b, p');
    NestedUnique(n, b, p', p, (n / b) / p', (n / b) % p', n % b);
  }

  lemma {:induction false} NestedUnique(n: nat, b: nat, p': nat, p: nat, q: nat, r: nat, c: nat)
    requires p == b * p' && n == b * (p' * q + r) + c && r < p' && c < b
    ensures p > 0 && n / p == q && (n % p) / b == r && (n % p) % b == c
  {
    Distribute(b, p', q, r);
    MulMono(b, r + 1, p');
    var low := b * r + c;
    assert b * (r + 1) == b * r + b;
    DivModUnique(n, q, low, p);
    DivModUnique(low, r, c, b);
  }

  lemma Distribute(b: int, p: int, q: int, r: int)
    ensures b * (p * q + r) == (b * p) * q + b * r
  {}

  /** The numeral of n is that of n / b^k followed by the k low digits. */
  lemma {:induction false} ChunkSplit(n: nat, b: nat, k: nat)
    requires b >= 2 && Pow(b, k) > 0 && n / Pow(b, k) > 0
    ensures n % Pow(b, k) >= 0
    ensures Digits(n, b) == Digits(n / Pow(b, k), b) + Chunk(n % Pow(b, k), b, k)
  {
    if k == 0 {
      DivModUnique(n, n, 0, 1);
    } else {
      NestedDivision(n, b, Pow(b, k - 1), Pow(b, k));
      DivFacts(n, b);
      DivFacts(n, Pow(b, k));
      DivFacts(n / b, Pow(b, k - 1));
      MulMono(b, 1, Pow(b, k - 1));
      ChunkSplit(n / b, b, k - 1);
    }
  }

  /** The chunk size: the least power of the base that is at least 65535 / base; it fits in 16 bits. */
  method ChunkPower(base: nat) returns (th16: uint16, innerLoops: nat)
    requires 2 <= base < 256
    ensures th16 == Pow(base, innerLoops) && innerLoops >= 1
    ensures Pow(base, innerLoops - 1) < 0xFFFF / base <= th16
  {
    var top: uint16 := 0xFFFF / base;
    DivFacts(0xFFFF, base);
    assert top > 1 by { if top <= 1 { MulMono(base, top, 1); } }
    th16, innerLoops := 1, 0;
    while th16 < top
      invariant 0 < th16 == Pow(base, innerLoops)
      invariant if innerLoops == 0 then th16 == 1 else Pow(base, innerLoops - 1) < top
      decreases top - th16
    {
      MulMono(base, th16, top);
      assert th16 * base == base * th16;
      MulMono(th16, 2, base);
      th16 := th16 * base;
      innerLoops := innerLoops + 1;
    }
  }

  /** The inner loop: k digits of r, least significant first, appended to the buffer. */
  method EmitChunk(r0: uint16, base: nat, k: nat, buf: array<nat>, i0: nat) returns (i: nat)
    requires 2 <= base < 256 && i0 + k <= buf.Length
    modifies buf
    ensures i == i0 + k && buf[..i0] == old(buf[..i0])
    ensures Reverse(buf[i0..i]) == Chunk(r0, base, k)
  {
    hide Chunk, Reverse;
    i := i0;
    var r: uint16 := r0;
    ghost var done: seq<nat> := [];
    ReverseNone();
    assert Chunk(r0, base, k) + [] == Chunk(r0, base, k);
    for j := 0 to k
      invariant i == i0 + j && buf[..i0] == old(buf[..i0])
      invariant buf[i0..i] == done
      invariant Chunk(r0, base, k) == Chunk(r, base, k - j) + Reverse(done)
    {
      DivFacts(r, base);
      ChunkStep(r, base, k - j);
      var qq: uint16 := r / base;
      ghost var d := r % base;
      assert r - qq * base == d;
      buf[i] := r - qq * base;
      i := i + 1;
      ReverseSnoc(done, d);
      Reassociate(Chunk(qq, base, k - j - 1), d, Reverse(done));
      done := done + [d];
      assert buf[i0..i] == done;
      r := qq;
    }
    ChunkNone(r, base);
  }

  lemma Reassociate(a: seq<nat>, d: nat, b: seq<nat>)
    ensures (a + [d]) + b == a + ([d] + b)
  {}

  lemma ReverseNone()
    ensures Reverse([]) == []
  {}

  lemma ChunkNone(r: nat, base: nat)
    requires base >= 2
    ensures Chunk(r, base, 0) == []
  {}

  lemma ChunkStep(r: nat, base: nat, k: nat)
    requires base >= 2 && k >= 1
    ensures r / base >= 0 && r % base >= 0
    ensures Chunk(r, base, k) == Chunk(r / base, base, k - 1) + [r % base]
  {
    DivFacts(r, base);
  }

  lemma {:induction false} ReverseSnoc(s: seq<nat>, x: nat)
    ensures Reverse(s + [x]) == [x] + Reverse(s)
  {
    if s != [] {
      ReverseSnoc(s[1..], x);
      assert (s + [x])[1..] == s[1..] + [x];
    }
  }

  lemma {:induction false} ReverseAppend(s: seq<nat>, t: seq<nat>)
    ensures Reverse(s + t) == Reverse(t) + Reverse(s)
  {
    if s == [] {
      assert s + t == t;
    } else {
      ReverseAppend(s[1..], t);
      assert (s + t)[1..] == s[1..] + t;
    }
  }

  lemma {:induction false} MoveDigit(left: seq<nat>, before: seq<nat>, d: nat)
    requires left != [] && left[|left| - 1] == d
    ensures left[..|left| - 1] + Reverse(before + [d]) == left + Reverse(before)
  {
    hide Reverse;
    ReverseSnoc(before, d);
    assert left == left[..|left| - 1] + [d];
    Assoc(left[..|left| - 1], [d], Reverse(before));
  }

  lemma Remainder(n: nat, base: nat)
    requires base > 0
    ensures 0 <= n / base <= n && 0 <= n % base == n - n / base * base
  {
    DivFacts(n, base);
  }

  lemma StoreBehind(buf: seq<nat>, from: nat, i: nat, d: nat)
    requires from <= i < |buf|
    ensures buf[i := d][..from] == buf[..from] && buf[i := d][from..i + 1] == buf[from..i] + [d]
  {}

  /** The last loop: the digits of what is left, appended without leading zeros. */
  method EmitRest(n0: uint16, base: nat, buf: array<nat>, i0: nat) returns (i: nat)
    requires 2 <= base < 256 && n0 > 0 && i0 + |Digits(n0, base)| <= buf.Length
    modifies buf
    ensures i == i0 + |Digits(n0, base)| && buf[..i0] == old(buf[..i0])
    ensures Reverse(buf[i0..i]) == Digits(n0, base)
  {
    hide Digits, Reverse;
    i := i0;
    var n16: uint16 := n0;
    ghost var left := Digits(n0, base);
    ReverseNone();
    while n16 > 0
      invariant i0 <= i <= buf.Length && buf[..i0] == old(buf[..i0])
      invariant left == (if n16 > 0 then Digits(n16, base) else [])
      invariant Digits(n0, base) == left + Reverse(buf[i0..i])
      decreases n16
    {
      LastDigit(n16, base);
      Remainder(n16, base);
      var qq: uint16 := n16 / base;
      ghost var d := n16 % base;
      MoveDigit(left, buf[i0..i], d);
      StoreBehind(buf[..], i0, i, d);
      buf[i] := n16 - qq * base;
      i := i + 1;
      left := left[..|left| - 1];
      n16 := qq;
    }
  }

  /** The chunk loop: 64-bit division for the quotient, 16-bit arithmetic for the digits. */
  method EmitChunks(n: uint64, base: nat, buf: array<nat>) returns (n64: uint16, i: nat)
    requires 0 < n && 2 <= base < 256 && buf.Length == 64
    modifies buf
    ensures 0 < n64 && i <= 64 && Digits(n, base) == Digits(n64, base) + Reverse(buf[..i])
  {
    hide Digits, Chunk, Reverse, Pow;
    ReverseNone();
    var th16, innerLoops := ChunkPower(base);
    PowerAtLeast(base, innerLoops);
    var left: uint64 := n;
    i := 0;
    PowerOfTwo();
    DigitsBound(n, base, 64);
    while left > th16
      invariant 0 < left && 0 <= i <= 64
      invariant Digits(n, base) == Digits(left, base) + Reverse(buf[..i])
      decreases left
    {
      DivFacts(left, th16);
      ChunkSplit(left, base, innerLoops);
      var q: uint64 := left / th16;
      var r: uint16 := left - q * th16;
      assert r == left % th16;
      ChunkLength(r, base, innerLoops);
      ghost var before := buf[..i];
      ReverseAt(before);
      var i' := EmitChunk(r, base, innerLoops, buf, i);
      assert buf[..i'] == before + buf[i..i'];
      ReverseAppend(before, buf[i..i']);
      i, left := i', q;
    }
    n64 := left;
  }

  /** The collected digits are written from the last one back. */
  method WriteBackwards(buf: array<nat>, count: nat) returns (written: seq<byte>)
    requires count <= buf.Length
    ensures written == Text(Reverse(buf[..count]))
  {
    hide Reverse;
    ghost var ds := Reverse(buf[..count]);
    ReverseAt(buf[..count]);
    written := [];
    var i := count;
    while i > 0
      invariant 0 <= i <= count && |written| == count - i
      invariant forall j :: 0 <= j < count - i ==> written[j] == DigitChar(ds[j])
    {
      written := written + [DigitChar(buf[i - 1])];
      i := i - 1;
    }
  }

  /**
   `printULLNumber`: digits of 16-bit chunks, collected backwards in a buffer of 64, written one by one.
   */
  method Print64(n: uint64, base0: byte) returns (written: seq<byte>)
    ensures written == Text(Digits(n, if base0 < 2 then 10 else base0))
  {
    hide Digits, Text, Reverse, Pow;
    if n == 0 {
      ZeroText(if base0 < 2 then 10 else base0);
      return [48];
    }
    var buf := new nat[64];
    var base: nat := if base0 < 2 then 10 else base0;
    PowerOfTwo();
    DigitsBound(n, base, 64);
    var n16, i := EmitChunks(n, base, buf);
    var bytes := EmitRest(n16, base, buf, i);
    ReverseParts(buf[..], i, bytes);
    written := WriteBackwards(buf, bytes);
  }

  lemma ReverseParts(buf: seq<nat>, i: nat, bytes: nat)
    requires i <= bytes <= |buf|
    ensures Reverse(buf[..bytes]) == Reverse(buf[i..bytes]) + Reverse(buf[..i])
  {
    hide Reverse;
    assert buf[..bytes] == buf[..i] + buf[i..bytes];
    ReverseAppend(buf[..i], buf[i..bytes]);
  }

  lemma ZeroText(base: nat)
    requires base >= 2
    ensures Text(Digits(0, base)) == [48]
  {}

  lemma {:induction false} ReverseAt(s: seq<nat>)
    ensures forall i :: 0 <= i < |s| ==> Reverse(s)[i] == s[|s| - 1 - i]
  {
    if s != [] { ReverseAt(s[1..]); }
  }

  lemma ChunkLength(r: nat, base: nat, k: nat)
    requires base >= 2
    ensures |Chunk(r, base, k)| == k
  {}

  lemma {:induction false} PowerAtLeast(base: nat, k: nat)
    requires base >= 2 && k >= 1
    ensures Pow(base, k) >= 2
  {
    if k > 1 {
      PowerAtLeast(base, k - 1);
      MulMono(base, 1, Pow(base, k - 1));
    } else {
      assert Pow(base, 0) == 1;
    }
  }

  /**
   The loop that writes a C string and the fast version that writes characters print the same text
   exactly when no digit is 208, whose character is NUL; so always in bases up to 208.
   */
  lemma {:induction false} SameTextExactlyWithoutNul(n: nat, base: byte)
    ensures var ds := Digits(n, EffectiveBase(base));
      && (CString(Text(ds)) == Text(ds) <==> 208 !in ds)
      && (base <= 208 ==> 208 !in ds)
  {
    var ds := Digits(n, EffectiveBase(base));
    CStringWhole(Text(ds));
    assert base <= 208 ==> EffectiveBase(base) <= 208;
    hide Digits, CString, EffectiveBase;
    NulDigit(ds);
    hide Text;
  }

  /** All of the text of n is printed through a C string. */
  predicate PrintsWhole(n: nat, base: byte) {
    CString(Text(Digits(n, EffectiveBase(base)))) == Text(Digits(n, EffectiveBase(base)))
  }

  /**
   The C-string versions print every number in full, 32 bits wide or 64, exactly in bases up to 208.
   In any larger base the number 208 is printed as nothing.
   */
  lemma WholeExactlyUpTo208(base: byte)
    ensures (forall n: uint32 :: PrintsWhole(n, base)) <==> EffectiveBase(base) <= 208
    ensures (forall n: uint64 :: PrintsWhole(n, base)) <==> EffectiveBase(base) <= 208
    ensures EffectiveBase(base) > 208 ==> CString(Text(Digits(208, EffectiveBase(base)))) == []
  {
    hide CString;
    var b := EffectiveBase(base);
    assert b <= 208 <==> base <= 208;
    if b <= 208 {
      forall n: nat ensures PrintsWhole(n, base) {
        SameTextExactlyWithoutNul(n, base);
      }
    } else {
      SameTextExactlyWithoutNul(208, base);
      assert Digits(208, b) == [208];
      NulDigit([208]);
      NulFirst(Text([208]));
      assert !PrintsWhole(208, base);
    }
  }

  lemma NulFirst(t: seq<byte>)
    requires |t| == 1 && t[0] == 0
    ensures CString(t) == []
  {}

  lemma NulDigit(ds: seq<nat>)
    requires forall i :: 0 <= i < |ds| ==> ds[i] < 256
    ensures 0 in Text(ds) <==> 208 in ds
  {
    forall i | 0 <= i < |ds| ensures Text(ds)[i] == 0 <==> ds[i] == 208 {}
    if 208 in ds {
      var i :| 0 <= i < |ds| && ds[i] == 208;
      assert Text(ds)[i] == 0;
    }
  }

  // ----- Reading hexadecimal digits back

  /** What is printed with upper-case digits is read as hexadecimal digits of the same value. */
  lemma {:induction false} HexOfDigits(ds: seq<nat>)
    requires forall i :: 0 <= i < |ds| ==> ds[i] < 16
    ensures forall i :: 0 <= i < |ds| ==> HexVal(Text(ds)[i]) == Some(ds[i])
    ensures HexValue(Text(ds)) == Value(ds, 16)
  {
    hide DigitChar, HexVal, Value;
    forall i | 0 <= i < |ds| ensures HexVal(Text(ds)[i]) == Some(ds[i]) {
      HexOfDigit(ds[i]);
    }
    if ds == [] {
      ValueOfNone(16);
    } else {
      HexOfDigits(ds[..|ds| - 1]);
      ValueSnoc(ds, 16);
      assert Text(ds)[..|ds| - 1] == Text(ds[..|ds| - 1]);
    }
  }

  lemma HexOfDigit(d: nat)
    requires d < 16
    ensures HexVal(DigitChar(d)) == Some(d)
  {}

  /** Every number printed in base 16 is read back as itself. */
  lemma HexOfPrinted(n: nat)
    ensures var t := Text(Digits(n, 16));
      && (forall i :: 0 <= i < |t| ==> HexVal(t[i]).Some?)
      && HexValue(t) == n
  {
    HexOfDigits(Digits(n, 16));
    DigitsDenote(n, 16);
  }

  // ----- Telling numbers apart

  /** m and n are printed alike, character by character, or through a C string. */
  predicate SameChars(m: nat, n: nat, base: byte) {
    Text(Digits(m, EffectiveBase(base))) == Text(Digits(n, EffectiveBase(base)))
  }

  predicate SameCString(m: nat, n: nat, base: byte) {
    CString(Text(Digits(m, EffectiveBase(base)))) == CString(Text(Digits(n, EffectiveBase(base))))
  }

  /**
   Different numbers are printed differently, by either kind of version, exactly in bases up to 128. The
   digits 121 and 128 have the same character.
   */
  lemma DistinctExactlyUpTo128(base: byte)
    ensures (forall m: uint32, n: uint32 :: SameCString(m, n, base) ==> m == n) <==> EffectiveBase(base) <= 128
    ensures (forall m: uint64, n: uint64 :: SameCString(m, n, base) ==> m == n) <==> EffectiveBase(base) <= 128
    ensures (forall m: uint64, n: uint64 :: SameChars(m, n, base) ==> m == n) <==> EffectiveBase(base) <= 128
    ensures EffectiveBase(base) > 128 ==> SameChars(121, 128, base) && SameCString(121, 128, base)
  {
    var b := EffectiveBase(base);
    hide SameChars, SameCString, EffectiveBase;
    if b <= 128 {
      forall m: nat, n: nat ensures SameChars(m, n, base) ==> m == n ensures SameCString(m, n, base) ==> m == n {
        TextTells(m, n, base);
      }
    } else {
      SameCharacter(base);
    }
  }

  lemma {:induction false} TextTells(m: nat, n: nat, base: byte)
    requires EffectiveBase(base) <= 128
    ensures SameChars(m, n, base) ==> m == n
    ensures SameCString(m, n, base) ==> m == n
  {
    hide Digits, Text, CString;
    var b := EffectiveBase(base);
    SameTextExactlyWithoutNul(m, base);
    SameTextExactlyWithoutNul(n, base);
    DigitsDenote(m, b);
    DigitsDenote(n, b);
    if Text(Digits(m, b)) == Text(Digits(n, b)) {
      SameDigits(Digits(m, b), Digits(n, b));
    }
  }

  lemma SameDigits(ds: seq<nat>, es: seq<nat>)
    requires (forall i :: 0 <= i < |ds| ==> ds[i] < 128) && (forall i :: 0 <= i < |es| ==> es[i] < 128)
    requires Text(ds) == Text(es)
    ensures ds == es
  {
    hide DigitChar;
    assert |ds| == |Text(ds)| == |es|;
    forall i | 0 <= i < |ds| ensures ds[i] == es[i] {
      assert Text(ds)[i] == Text(es)[i];
      SameDigit(ds[i], es[i]);
    }
  }

  lemma SameDigit(d: nat, e: nat)
    requires d < 128 && e < 128 && DigitChar(d) == DigitChar(e)
    ensures d == e
  {
    hide DigitChar;
    SmallDigit(d);
    SmallDigit(e);
  }

  lemma SmallDigit(d: nat)
    requires d < 128
    ensures DigitChar(d) == if d < 10 then d + 48 else d + 55
  {}

  lemma SameCharacter(base: byte)
    requires EffectiveBase(base) > 128
    ensures SameChars(121, 128, base) && SameCString(121, 128, base)
  {
    var b := EffectiveBase(base);
    assert Digits(121, b) == [121] && Digits(128, b) == [128];
    assert DigitChar(121) == DigitChar(128);
    assert Text([121]) == Text([128]);
  }
}
