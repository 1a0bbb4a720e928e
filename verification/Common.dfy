/** Types shared by all the modules. */
module Common {

  /** An unsigned 8-bit value: a `uint8_t`, or the bits of a `char`. */
  type byte = b: int | 0 <= b < 256

  type uint16 = x: int | 0 <= x < 0x1_0000

  type uint32 = x: int | 0 <= x < 0x1_0000_0000

  type uint64 = x: int | 0 <= x < 0x1_0000_0000_0000_0000

  datatype Option<+T> = None | Some(value: T)

  /** What a C string function sees of a buffer: everything before the first NUL. */
  function CString(t: seq<byte>): seq<byte> {
    if t == [] || t[0] == 0 then [] else [t[0]] + CString(t[1..])
  }

  lemma {:induction false} CStringWhole(t: seq<byte>)
    ensures CString(t) == t <==> 0 !in t
    ensures CString(t + [0]) == CString(t)
  {
    if t != [] {
      CStringWhole(t[1..]);
      assert (t + [0])[1..] == t[1..] + [0];
      assert t == [t[0]] + t[1..];
    }
  }

  function Joined(pieces: seq<seq<byte>>): seq<byte> {
    if pieces == [] then [] else pieces[0] + Joined(pieces[1..])
  }

  /** The 16-bit value of two bytes. */
  function Word(hi: byte, lo: byte): (v: nat)
    ensures v <= 0xffff
  {
    (hi as int) * 256 + lo as int
  }

  /** The value of a hexadecimal character, either case. */
  function HexVal(c: byte): (v: Option<nat>)
    ensures v.Some? ==> v.value < 16 && c != 58
  {
    if 48 <= c <= 57 then Some(c - 48)
    else if 97 <= c <= 102 then Some(c - 87)
    else if 65 <= c <= 70 then Some(c - 55)
    else None
  }

  /** The value of hexadecimal digits: any case, any number of leading zeros. */
  function HexValue(digits: seq<byte>): nat
    requires forall i :: 0 <= i < |digits| ==> HexVal(digits[i]).Some?
  {
    if digits == [] then 0 else HexValue(digits[..|digits| - 1]) * 16 + HexVal(digits[|digits| - 1]).value
  }

  /** The codes of characters; the low bytes of those beyond 8 bits. */
  function Codes(s: string): (t: seq<byte>)
    ensures |t| == |s| && forall i :: 0 <= i < |t| ==> t[i] == s[i] as int % 256
  {
    seq(|s|, i requires 0 <= i < |s| => s[i] as int % 256)
  }

  /** A character with its letter in lower case. */
  function Lower(c: byte): byte {
    if 65 <= c <= 90 then c + 32 else c
  }

  function LowerText(s: seq<byte>): (t: seq<byte>)
    ensures |t| == |s| && forall i :: 0 <= i < |t| ==> t[i] == Lower(s[i])
  {
    seq(|s|, i requires 0 <= i < |s| => Lower(s[i]))
  }

  /** The case of the letters does not matter to hexadecimal digits. */
  lemma {:induction false} HexIgnoresCase(s: seq<byte>)
    ensures forall c: byte :: HexVal(Lower(c)) == HexVal(c)
    ensures (forall i :: 0 <= i < |s| ==> HexVal(s[i]).Some?) ==> HexValue(LowerText(s)) == HexValue(s)
  {
    if s != [] {
      HexIgnoresCase(s[..|s| - 1]);
      assert LowerText(s)[..|s| - 1] == LowerText(s[..|s| - 1]);
    }
  }

  lemma Assoc<T>(x: seq<T>, y: seq<T>, z: seq<T>)
    ensures (x + y) + z == x + (y + z)
  {}
}
