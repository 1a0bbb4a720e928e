/**
 `IPAddress`: sixteen bytes and a type, parsed from text in place and printed.
 */
module IpAddress {
  import opened Common
  import opened PrintNumber
  import opened IpText

  datatype IPType = IPv4 | IPv6

  /** The eight 16-bit groups of sixteen bytes. */
  function GroupsOf(b: seq<byte>): (g: seq<nat>)
    requires |b| == 16
    ensures |g| == 8 && forall i :: 0 <= i < 8 ==> g[i] == Word(b[2 * i], b[2 * i + 1]) && g[i] <= 0xffff
  {
    seq(8, i requires 0 <= i < 8 => Word(b[2 * i], b[2 * i + 1]))
  }

  lemma GroupsDetermineBytes(b: seq<byte>, b': seq<byte>)
    requires |b| == |b'| == 16 && GroupsOf(b) == GroupsOf(b')
    ensures b == b'
  {
    forall i | 0 <= i < 8 ensures b[2 * i] == b'[2 * i] && b[2 * i + 1] == b'[2 * i + 1] {
      assert GroupsOf(b)[i] == GroupsOf(b')[i];
    }
    forall k | 0 <= k < 16 ensures b[k] == b'[k] {
      assert k == 2 * (k / 2) || k == 2 * (k / 2) + 1;
    }
  }

  /** Bytes from 2 * from on hold the groups g. */
  predicate Stored(b: seq<byte>, from: nat, g: seq<nat>) {
    2 * from + 2 * |g| <= |b| &&
    forall i :: 0 <= i < |g| ==> Word(b[2 * (from + i)], b[2 * (from + i) + 1]) == g[i]
  }

  /** The bytes from..to of b stand `gap` further up in m, and those below `from` are as they were. */
  predicate Moved(b: seq<byte>, m: seq<byte>, from: nat, to: nat, gap: nat)
    requires from <= to && to + gap <= |b| == |m|
  {
    && (forall k :: 0 <= k < from ==> m[k] == b[k])
    && (forall k :: from <= k < to ==> m[k + gap] == b[k])
  }

  /** b is m with 0 from `low` to j. */
  predicate Cleared(m: seq<byte>, b: seq<byte>, low: nat, j: nat) {
    && |m| == |b|
    && (forall k :: 0 <= k < |b| && !(low <= k < j) ==> b[k] == m[k])
    && (forall k :: low <= k < j && k < |b| ==> b[k] == 0)
  }

  lemma NothingCleared(m: seq<byte>, low: nat)
    ensures Cleared(m, m, low, low)
  {}

  lemma OneCleared(m: seq<byte>, b: seq<byte>, low: nat, j: nat)
    requires Cleared(m, b, low, j) && low <= j < |b|
    ensures Cleared(m, b[j := 0], low, j + 1)
  {}

  class IPAddress {
    const bytes: array<byte>
    var kind: IPType

    ghost predicate Valid()
      reads this
    {
      bytes.Length == 16
    }

    ghost function Value(): Address
      reads this, bytes
    {
      Address(kind, bytes[..])
    }

    constructor (kind: IPType)
      ensures Valid() && this.kind == kind && fresh(bytes)
      ensures forall i :: 0 <= i < 16 ==> bytes[i] == 0
    {
      bytes := new byte[16](_ => 0);
      this.kind := kind;
    }

    /** Octets are read into the last four bytes as their dots are met; the first twelve are cleared. */
    method FromString4(address: seq<byte>) returns (ok: bool)
      requires Valid()
      modifies this, bytes
      ensures Valid()
      ensures ok <==> Scan4(address, -1, []).Some?
      ensures ok ==> kind == IPv4 && bytes[12..] == Scan4(address, -1, []).value
      ensures ok ==> forall i :: 0 <= i < 12 ==> bytes[i] == 0
      ensures !ok ==> kind == old(kind)
    {
      var acc: int := -1;
      var dots := 0;
      forall i | 0 <= i < 16 { bytes[i] := 0; }
      ghost var g: seq<byte> := [];
      var p := 0;
      assert address[0..] == address;
      while p < |address|
        invariant 0 <= p <= |address| && -1 <= acc < 256 && dots == |g| <= 3
        invariant bytes[12..12 + dots] == g && kind == old(kind)
        invariant forall i :: 0 <= i < 12 ==> bytes[i] == 0
        invariant Scan4(address, -1, []) == Scan4(address[p..], acc, g)
      {
        var c := address[p];
        assert address[p..][1..] == address[p + 1..];
        p := p + 1;
        if 48 <= c <= 57 {
          acc := if acc < 0 then c - 48 else acc * 10 + (c - 48);
          if acc > 255 { return false; }
        } else if c == DOT {
          if dots == 3 { return false; }
          if acc < 0 { return false; }
          bytes[12 + dots] := acc;
          g := g + [acc];
          dots := dots + 1;
          acc := -1;
        } else {
          return false;
        }
      }
      if dots != 3 { return false; }
      if acc < 0 { return false; }
      bytes[15] := acc;
      kind := IPv4;
      assert bytes[12..] == bytes[12..15] + [acc];
      return true;
    }

    /** Stores one group at a position of the byte array. */
    method StoreGroup(at: nat, acc: nat, ghost g: seq<nat>)
      requires Valid() && at < 8 && acc <= 0xffff && at == |g| && Stored(bytes[..], 0, g)
      modifies bytes
      ensures Stored(bytes[..], 0, g + [acc])
    {
      bytes[at * 2] := acc / 256;
      bytes[at * 2 + 1] := acc % 256;
    }

    /** The tail from `from` to `to` moves up by `gap`, last byte first: no byte is read after it is written. */
    method MoveTail(from: nat, to: nat, gap: nat)
      requires Valid() && from <= to && to + gap <= 16
      modifies bytes
      ensures Moved(old(bytes[..]), bytes[..], from, to, gap)
    {
      var i := to - from - 1;
      while i >= 0
        invariant -1 <= i < to - from
        invariant forall k :: 0 <= k <= from + i ==> bytes[k] == old(bytes[k])
        invariant forall k :: from + i < k < to ==> bytes[k + gap] == old(bytes[k])
      {
        bytes[gap + from + i] := bytes[from + i];
        i := i - 1;
      }
    }

    /** The in-place expansion of "::": the tail moves to the end, then the gap is cleared. */
    method Expand(colons: nat, dc: nat, ghost all: seq<nat>)
      requires Valid() && |all| == colons <= 8 && dc <= colons && Stored(bytes[..], 0, all)
      modifies bytes
      ensures GroupsOf(bytes[..]) == all[..dc] + Zeros(8 - colons) + all[dc..]
    {
      hide GroupsOf, Stored, Zeros, Moved, Cleared;
      ghost var b := bytes[..];
      MoveTail(dc * 2, colons * 2, 16 - colons * 2);
      ghost var m := bytes[..];
      NothingCleared(m, dc * 2);
      for j := dc * 2 to 16 - colons * 2 + dc * 2
        invariant Cleared(m, bytes[..], dc * 2, j)
      {
        OneCleared(m, bytes[..], dc * 2, j);
        bytes[j] := 0;
      }
      Expanded(b, m, bytes[..], colons, dc, all);
    }

    /** Whatever the bytes held before, an accepted text determines all eight groups. */
    method FromString6(address: seq<byte>) returns (ok: bool)
      requires Valid()
      modifies this, bytes
      ensures Valid()
      ensures ok <==> Parse6(address).Some?
      ensures ok ==> kind == IPv6 && GroupsOf(bytes[..]) == Parse6(address).value
      ensures !ok ==> kind == old(kind)
    {
      hide ScanAt, Stored, GroupsOf, HexVal, Parse6, Zeros;
      StoredNothing(bytes[..]);
      ScanBegins(address);
      var acc: nat := 0;
      var colons, double_colons := 0, -1;
      ghost var g: seq<nat> := [];
      var p := 0;
      while p < |address|
        invariant 0 <= p <= |address| && colons == |g| && ScanOk(Scan(acc, g, double_colons))
        invariant Stored(bytes[..], 0, g) && kind == old(kind)
        invariant ScanAt(address, p, Scan(acc, g, double_colons))
      {
        var c := address[p];
        ScanTurn(address, p, Scan(acc, g, double_colons));
        p := p + 1;
        if HexVal(c).Some? {
          acc := acc * 16 + HexVal(c).value;
          if acc > 0xffff { return false; }
        } else if c == COLON {
          if p < |address| && address[p] == COLON {
            if double_colons >= 0 { return false; }
            if p + 1 < |address| && address[p + 1] == COLON { return false; }
            double_colons := colons + if acc != 0 then 1 else 0;
            p := p + 1;
          } else if p == |address| {
            return false;
          }
          if colons == 7 { return false; }
          StoreGroup(colons, acc, g);
          g := g + [acc];
          colons, acc := colons + 1, 0;
        } else {
          return false;
        }
      }
      ParseEnd(address, Scan(acc, g, double_colons));
      if double_colons == -1 && colons != 7 { return false; }
      if double_colons > -1 && colons > 6 { return false; }
      StoreGroup(colons, acc, g);
      g := g + [acc];
      colons := colons + 1;
      if double_colons != -1 {
        Expand(colons, double_colons, g);
      } else {
        StoredAll(bytes[..], g);
      }
      kind := IPv6;
      return true;
    }

    /** `fromString`: IPv4 first, and IPv6 on the cleared bytes if that fails. */
    method FromString(address: seq<byte>) returns (ok: bool)
      requires Valid()
      modifies this, bytes
      ensures Valid()
      ensures Scan4(address, -1, []).Some? ==>
        ok && kind == IPv4 && bytes[12..] == Scan4(address, -1, []).value && forall i :: 0 <= i < 12 ==> bytes[i] == 0
      ensures Scan4(address, -1, []).None? ==> (ok <==> Parse6(address).Some?)
      ensures Scan4(address, -1, []).None? && ok ==> kind == IPv6 && GroupsOf(bytes[..]) == Parse6(address).value
      ensures !ok ==> kind == old(kind)
      ensures ok ==> WellFormed(Value()) && ReadsAs(address, Value())
      ensures !ok ==> forall b :: !ReadsAs(address, b)
    {
      hide Scan4, Parse6, GroupsOf;
      ok := FromString4(address);
      if !ok {
        ok := FromString6(address);
      }
    }

    /** The scan for the run of zero groups to compress. */
    method FindRun() returns (start: int, len: int)
      requires Valid()
      ensures LeftmostLongest(GroupsOf(bytes[..]), start, len)
      ensures if start == -1 then len == 1 else 0 <= start && 2 <= len && start + len <= 8
    {
      hide GroupsOf, CurrentRun, BestUpTo, ZeroRun, LeftmostLongest, Word;
      ghost var b := bytes[..];
      ghost var g := GroupsOf(b);
      NoRunYet(g);
      start, len := -1, 1;
      var current_start, current_length := -1, 0;
      for f := 0 to 8
        invariant CurrentRun(g, f, current_start, current_length) && BestUpTo(g, f, start, len)
      {
        GroupIsZero(b, f);
        if bytes[f * 2] == 0 && bytes[f * 2 + 1] == 0 {
          LongerRun(g, f, current_start, current_length, start, len);
          if current_start == -1 {
            current_start := f;
            current_length := 1;
          } else {
            current_length := current_length + 1;
          }
          if current_length > len {
            start, len := current_start, current_length;
          }
        } else {
          NoRunEndsHere(g, f, current_length, start, len);
          current_start := -1;
        }
      }
      BestIsLeftmost(g, start, len);
    }

    /** `printTo`. For IPv6 the ghost results are the compressed run. */
    method PrintTo() returns (out: seq<byte>, ghost start: int, ghost len: int)
      requires Valid()
      ensures kind == IPv6 ==>
        LeftmostLongest(GroupsOf(bytes[..]), start, len) && out == Text6(GroupsOf(bytes[..]), start, len)
      ensures kind == IPv4 ==> out == Text4(bytes[12..])
      ensures WellFormed(Value()) ==> forall b :: ReadsAs(out, b) <==> b == Value()
    {
      hide Text6, Text4, ZeroRun, HexText, PrintedTo, TrailTo, Digits, ReadsAs, LeftmostLongest, GroupsOf;
      out, start, len := [], -1, 0;
      if kind == IPv6 {
        var longest_start, longest_length := FindRun();
        start, len := longest_start, longest_length;
        ghost var g := GroupsOf(bytes[..]);
        PrintedNothing(g, start, len);
        for f := 0 to 8
          invariant out == PrintedTo(g, start, len, f)
        {
          PrintedStep(g, start, len, f);
          if f < longest_start || f >= longest_start + longest_length {
            var t := PrintGroup(bytes[f * 2], bytes[f * 2 + 1]);
            out := out + t;
            if f < 7 {
              out := out + [COLON];
            }
          } else if f == longest_start {
            if longest_start == 0 {
              out := out + [COLON];
            }
            out := out + [COLON];
          }
        }
        PrintedIsText6(g, start, len);
      } else {
        out := PrintQuad(bytes[12], bytes[13], bytes[14], bytes[15]);
        assert bytes[12..] == [bytes[12], bytes[13], bytes[14], bytes[15]];
      }
      EveryPrint(Value(), start, len);
      assert bytes[..][12..] == bytes[12..];
    }

    /** `toString`: `%u.%u.%u.%u`, or eight groups of four digits. */
    function ToString(): (text: seq<byte>)
      requires Valid()
      reads this, bytes
      ensures WellFormed(Value()) ==> forall b :: ReadsAs(text, b) <==> b == Value()
    {
      EveryToString(Value());
      assert bytes[..][12..] == bytes[12..];
      if kind == IPv4 then Text4(bytes[12..]) else FullText6(GroupsOf(bytes[..]))
    }
  }

  /** One IPv6 group: nibbles, the leading zero ones suppressed. */
  method PrintGroup(hi: byte, lo: byte) returns (t: seq<byte>)
    ensures t == HexText(Word(hi, lo))
  {
    var c1, c2, c3, c4 := hi / 16, hi % 16, lo / 16, lo % 16;
    HexDigits(Word(hi, lo), c1, c2, c3, c4);
    t := [];
    if c1 > 0 {
      t := t + [HexChar(c1)];
    }
    if c1 > 0 || c2 > 0 {
      t := t + [HexChar(c2)];
    }
    if c1 > 0 || c2 > 0 || c3 > 0 {
      t := t + [HexChar(c3)];
    }
    t := t + [HexChar(c4)];
  }

  lemma HexDigits(v: nat, c1: nat, c2: nat, c3: nat, c4: nat)
    requires c1 < 16 && c2 < 16 && c3 < 16 && c4 < 16
    requires v == c1 * 4096 + c2 * 256 + c3 * 16 + c4
    ensures Digits(v, 16) ==
            if c1 > 0 then [c1, c2, c3, c4]
            else if c2 > 0 then [c2, c3, c4]
            else if c3 > 0 then [c3, c4] else [c4]
  {
    var v1 := c1 * 256 + c2 * 16 + c3;
    var v2 := c1 * 16 + c2;
    assert v / 16 == v1 && v % 16 == c4 && v1 / 16 == v2 && v1 % 16 == c3 && v2 / 16 == c1 && v2 % 16 == c2;
    assert Digits(v2, 16) == if c1 > 0 then [c1, c2] else [c2];
    assert Digits(v1, 16) == if c1 > 0 then [c1, c2, c3] else if c2 > 0 then [c2, c3] else [c3];
  }

  /** An IPv4 address: each octet through `Print::print(unsigned char, DEC)`. */
  method PrintQuad(a: byte, b: byte, c: byte, d: byte) returns (out: seq<byte>)
    ensures out == Text4([a, b, c, d])
  {
    hide Digits, PrintNumber.Text, CString;
    SameTextExactlyWithoutNul(a, 10);
    SameTextExactlyWithoutNul(b, 10);
    SameTextExactlyWithoutNul(c, 10);
    SameTextExactlyWithoutNul(d, 10);
    var t := Print32(a, 10);
    out := t + [DOT];
    t := Print32(b, 10);
    out := out + t + [DOT];
    t := Print32(c, 10);
    out := out + t + [DOT];
    t := Print32(d, 10);
    out := out + t;
  }

  lemma GroupIsZero(b: seq<byte>, f: nat)
    requires |b| == 16 && f < 8
    ensures GroupsOf(b)[f] == 0 <==> b[f * 2] == 0 && b[f * 2 + 1] == 0
  {
    hide GroupsOf, Word;
    WordIsZero(b[2 * f], b[2 * f + 1]);
  }

  lemma WordIsZero(hi: byte, lo: byte)
    ensures Word(hi, lo) == 0 <==> hi == 0 && lo == 0
  {}

  lemma NoRunYet(g: seq<nat>)
    ensures CurrentRun(g, 0, -1, 0) && BestUpTo(g, 0, -1, 1)
  {}

  lemma BestIsLeftmost(g: seq<nat>, start: int, len: int)
    requires |g| == 8 && BestUpTo(g, 8, start, len)
    ensures LeftmostLongest(g, start, len)
    ensures if start == -1 then len == 1 else 0 <= start && 2 <= len && start + len <= 8
  {
    assert start == -1 ==> forall s :: ZeroRun(g, s, 2) ==> s + 2 <= 8;
  }

  /** The run of zero groups that ends before f, from its start; -1 when there is none. */
  ghost predicate CurrentRun(g: seq<nat>, f: nat, start: int, len: int)
    requires f <= |g|
  {
    if start == -1 then f == 0 || g[f - 1] != 0
    else ZeroRun(g, start, len) && len == f - start > 0 && (start == 0 || g[start - 1] != 0)
  }

  /** The leftmost of the longest runs before f, of two groups or more. */
  ghost predicate BestUpTo(g: seq<nat>, f: nat, start: int, len: int) {
    && (if start == -1 then len == 1 else len >= 2 && start + len <= f && ZeroRun(g, start, len))
    && forall s, l :: ZeroRun(g, s, l) && 2 <= l && s + l <= f ==> l < len || (l == len && start != -1 && start <= s)
  }

  lemma LongerRun(g: seq<nat>, f: nat, cs: int, cl: int, start: int, len: int)
    requires f < |g| && g[f] == 0 && CurrentRun(g, f, cs, cl) && BestUpTo(g, f, start, len)
    ensures var s, l := if cs == -1 then f else cs, if cs == -1 then 1 else cl + 1;
      && CurrentRun(g, f + 1, s, l)
      && BestUpTo(g, f + 1, if l > len then s else start, if l > len then l else len)
  {
    var from := if cs == -1 then f else cs;
    forall s, l | ZeroRun(g, s, l) && l > 0 && s + l == f + 1 ensures from <= s {}
  }

  lemma NoRunEndsHere(g: seq<nat>, f: nat, cl: int, start: int, len: int)
    requires f < |g| && g[f] != 0 && BestUpTo(g, f, start, len)
    ensures CurrentRun(g, f + 1, -1, cl) && BestUpTo(g, f + 1, start, len)
  {
    forall s, l | ZeroRun(g, s, l) && l > 0 ensures s + l != f + 1 {}
  }

  // ----- The print loop

  /** Groups a..f, each followed by a colon unless it is the eighth. */
  function TrailTo(g: seq<nat>, a: nat, f: nat): seq<byte>
    requires f <= |g| == 8
  {
    if f <= a then [] else TrailTo(g, a, f - 1) + HexText(g[f - 1]) + if f - 1 < 7 then [COLON] else []
  }

  /** What has been printed before group f. */
  function PrintedTo(g: seq<nat>, start: int, len: int, f: nat): seq<byte>
    requires f <= |g| == 8 && (start == -1 || (0 <= start && 2 <= len && start + len <= 8))
  {
    if start < 0 || f <= start then TrailTo(g, 0, f)
    else TrailTo(g, 0, start) + (if start == 0 then [COLON, COLON] else [COLON]) + TrailTo(g, start + len, f)
  }

  lemma PrintedNothing(g: seq<nat>, start: int, len: int)
    requires |g| == 8 && (start == -1 || (0 <= start && 2 <= len && start + len <= 8))
    ensures PrintedTo(g, start, len, 0) == []
  {}

  /** One turn of the print loop. */
  lemma {:induction false} PrintedStep(g: seq<nat>, start: int, len: int, f: nat)
    requires f < |g| == 8 && (start == -1 || (0 <= start && 2 <= len && start + len <= 8))
    ensures var was, now := PrintedTo(g, start, len, f), PrintedTo(g, start, len, f + 1);
      if start < 0 || f < start || f >= start + len then now == was + HexText(g[f]) + if f < 7 then [COLON] else []
      else if f == start then now == was + if start == 0 then [COLON, COLON] else [COLON]
      else now == was
  {
    hide HexText;
    if start >= 0 && f >= start + len {
      Assoc(TrailTo(g, 0, start) + (if start == 0 then [COLON, COLON] else [COLON]), TrailTo(g, start + len, f), HexText(g[f]));
    }
  }

  lemma {:induction false} JoinSnoc(ts: seq<seq<byte>>, t: seq<byte>)
    ensures Join(ts + [t]) == if ts == [] then t else Join(ts) + [COLON] + t
  {
    if ts == [] {
    } else if |ts| == 1 {
      assert (ts + [t])[1..] == [t];
    } else {
      JoinSnoc(ts[1..], t);
      assert (ts + [t])[1..] == ts[1..] + [t];
    }
  }

  lemma {:induction false} TrailIsJoin(g: seq<nat>, a: nat, f: nat)
    requires a <= f <= |g| == 8
    ensures TrailTo(g, a, f) == Join(Tokens(g[a..f])) + if a < f < 8 then [COLON] else []
  {
    hide TrailTo, Tokens, Join, HexText;
    TrailTurn(g, a, f);
    if a < f {
      TrailIsJoin(g, a, f - 1);
      TokensSnoc(g, a, f);
      JoinSnoc(Tokens(g[a..f - 1]), HexText(g[f - 1]));
      if f - 1 == a { JoinNone(g[a..a]); assert g[a..a][..0] == g[a..a]; }
    } else {
      JoinNone(g[a..f]);
      assert g[a..f][..0] == g[a..f];
    }
  }

  lemma TrailTurn(g: seq<nat>, a: nat, f: nat)
    requires a <= f <= |g| == 8
    ensures TrailTo(g, a, f) ==
      if f == a then [] else TrailTo(g, a, f - 1) + HexText(g[f - 1]) + if f < 8 then [COLON] else []
  {
    hide HexText;
  }

  lemma TokensSnoc(g: seq<nat>, a: nat, f: nat)
    requires a < f <= |g|
    ensures Tokens(g[a..f]) == Tokens(g[a..f - 1]) + [HexText(g[f - 1])]
  {
    hide HexText;
  }

  lemma JoinNone(g: seq<nat>)
    ensures Join(Tokens(g[..0])) == []
  {}

  lemma {:induction false} PrintedIsText6(g: seq<nat>, start: int, len: int)
    requires |g| == 8 && (start == -1 || (0 <= start && 2 <= len && start + len <= 8))
    ensures PrintedTo(g, start, len, 8) == Text6(g, start, len)
  {
    hide TrailTo, HexText, Tokens, Join;
    if start < 0 {
      TrailIsJoin(g, 0, 8);
      assert g[0..8] == g;
    } else {
      TrailIsJoin(g, 0, start);
      TrailIsJoin(g, start + len, 8);
      assert g[0..start] == g[..start] && g[start + len..8] == g[start + len..];
      JoinNone(g);
    }
  }

  // ----- Round trips of whole addresses

  /** The bytes and the type after a successful `fromString`. */
  datatype Address = Address(kind: IPType, bytes: seq<byte>)

  /** What the contract of `FromString` determines. */
  ghost predicate ReadsAs(text: seq<byte>, a: Address) {
    |a.bytes| == 16 &&
    match Scan4(text, -1, [])
    case Some(v) => a.kind == IPv4 && a.bytes[12..] == v && forall i :: 0 <= i < 12 ==> a.bytes[i] == 0
    case None => a.kind == IPv6 && Parse6(text) == Some(GroupsOf(a.bytes))
  }

  /** The addresses the constructors build: an IPv4 address uses only the last four bytes. */
  ghost predicate WellFormed(a: Address) {
    |a.bytes| == 16 && (a.kind == IPv4 ==> forall i :: 0 <= i < 12 ==> a.bytes[i] == 0)
  }

  /** `fromString` undoes `printTo`: the text reads as the address and as no other. */
  lemma PrintToRoundTrip(a: Address, start: int, len: int, b: Address)
    requires WellFormed(a) && (a.kind == IPv6 ==> LeftmostLongest(GroupsOf(a.bytes), start, len))
    ensures var text := if a.kind == IPv4 then Text4(a.bytes[12..]) else Text6(GroupsOf(a.bytes), start, len);
      ReadsAs(text, b) <==> b == a
  {
    hide Parse6, Scan4, Text6, Text4;
    if a.kind == IPv4 {
      Printed4IsRead(a.bytes[12..]);
    } else {
      PrintedIsRead(GroupsOf(a.bytes), start, len);
      PrintedIsNotQuad(GroupsOf(a.bytes), start, len);
    }
    SameAddress(a, b);
  }

  lemma EveryToString(a: Address)
    requires |a.bytes| == 16
    ensures WellFormed(a) ==>
      var text := if a.kind == IPv4 then Text4(a.bytes[12..]) else FullText6(GroupsOf(a.bytes));
      forall b :: ReadsAs(text, b) <==> b == a
  {
    hide Text4, FullText6, GroupsOf, ReadsAs;
    if WellFormed(a) {
      var text := if a.kind == IPv4 then Text4(a.bytes[12..]) else FullText6(GroupsOf(a.bytes));
      forall b ensures ReadsAs(text, b) <==> b == a { ToStringRoundTrip(a, b); }
    }
  }

  lemma EveryPrint(a: Address, start: int, len: int)
    requires |a.bytes| == 16
    ensures WellFormed(a) && (a.kind == IPv6 ==> LeftmostLongest(GroupsOf(a.bytes), start, len)) ==>
      var text := if a.kind == IPv4 then Text4(a.bytes[12..]) else Text6(GroupsOf(a.bytes), start, len);
      forall b :: ReadsAs(text, b) <==> b == a
  {
    hide Text4, Text6, GroupsOf, ReadsAs;
    if WellFormed(a) && (a.kind == IPv6 ==> LeftmostLongest(GroupsOf(a.bytes), start, len)) {
      var text := if a.kind == IPv4 then Text4(a.bytes[12..]) else Text6(GroupsOf(a.bytes), start, len);
      forall b ensures ReadsAs(text, b) <==> b == a { PrintToRoundTrip(a, start, len, b); }
    }
  }

  /** `fromString` undoes `toString`. */
  lemma ToStringRoundTrip(a: Address, b: Address)
    requires WellFormed(a)
    ensures var text := if a.kind == IPv4 then Text4(a.bytes[12..]) else FullText6(GroupsOf(a.bytes));
      ReadsAs(text, b) <==> b == a
  {
    hide Parse6, Scan4, FullText6, Text4;
    if a.kind == IPv4 {
      Printed4IsRead(a.bytes[12..]);
    } else {
      FullTextIsRead(GroupsOf(a.bytes));
    }
    SameAddress(a, b);
  }

  lemma SameAddress(a: Address, b: Address)
    requires |a.bytes| == 16
    ensures |b.bytes| == 16 && GroupsOf(a.bytes) == GroupsOf(b.bytes) ==> a.bytes == b.bytes
    ensures |b.bytes| == 16 && a.bytes[..12] == b.bytes[..12] && a.bytes[12..] == b.bytes[12..] ==> a.bytes == b.bytes
  {
    if |b.bytes| == 16 && GroupsOf(a.bytes) == GroupsOf(b.bytes) {
      GroupsDetermineBytes(a.bytes, b.bytes);
    }
    assert a.bytes == a.bytes[..12] + a.bytes[12..];
    if |b.bytes| == 16 {
      assert b.bytes == b.bytes[..12] + b.bytes[12..];
    }
  }

  /** What is left of the scan at position p. */
  ghost predicate ScanAt(s: seq<byte>, p: nat, st: Scan) {
    p <= |s| && ScanOk(st) && Scan6(s, Scan(0, [], -1)) == Scan6(s[p..], st)
  }

  lemma ScanBegins(s: seq<byte>)
    ensures ScanAt(s, 0, Scan(0, [], -1))
  {
    hide Scan6;
    assert s[0..] == s;
  }

  /** One turn of the loop: refused, or further by one character or by "::". */
  lemma ScanTurn(s: seq<byte>, p: nat, st: Scan)
    requires ScanAt(s, p, st) && p < |s|
    ensures HexVal(s[p]).Some? ==>
      var acc := st.acc * 16 + HexVal(s[p]).value;
      if acc > 0xffff then Parse6(s) == None else ScanAt(s, p + 1, st.(acc := acc))
    ensures HexVal(s[p]).None? && s[p] != COLON ==> Parse6(s) == None
    ensures s[p] == COLON && |s| > p + 1 && s[p + 1] == COLON ==>
      if st.dc >= 0 || (|s| > p + 2 && s[p + 2] == COLON) || |st.g| == 7 then Parse6(s) == None
      else ScanAt(s, p + 2, Scan(0, st.g + [st.acc], |st.g| + if st.acc != 0 then 1 else 0))
    ensures s[p] == COLON && !(|s| > p + 1 && s[p + 1] == COLON) ==>
      if |s| == p + 1 || |st.g| == 7 then Parse6(s) == None else ScanAt(s, p + 1, Scan(0, st.g + [st.acc], st.dc))
  {
    hide Scan6, HexVal;
    ScanStep(s[p..], st);
    assert s[p..][1..] == s[p + 1..];
    assert |s| > p + 1 ==> s[p..][2..] == s[p + 2..];
  }

  /** What `fromString6` does behind its loop. */
  lemma ParseEnd(s: seq<byte>, st: Scan)
    requires ScanAt(s, |s|, st)
    ensures var all := st.g + [st.acc];
      Parse6(s) == (
        if st.dc == -1 then if |st.g| != 7 then None else Some(all)
        else if |st.g| > 6 then None
        else Some(all[..st.dc] + Zeros(8 - |all|) + all[st.dc..]))
  {
    hide Scan6, Zeros;
    assert s[|s|..] == [];
    ScanEnd(st);
  }

  lemma StoredNothing(b: seq<byte>)
    ensures Stored(b, 0, [])
  {}

  lemma StoredAll(b: seq<byte>, g: seq<nat>)
    requires |b| == 16 && |g| == 8 && Stored(b, 0, g)
    ensures GroupsOf(b) == g
  {
    forall i | 0 <= i < 8 ensures GroupsOf(b)[i] == g[i] {
      assert Word(b[2 * (0 + i)], b[2 * (0 + i) + 1]) == g[i];
    }
  }

  /** After the move and the clearing, the groups are the left part, zeros, and the right part. */
  lemma Expanded(b: seq<byte>, m: seq<byte>, b': seq<byte>, colons: nat, dc: nat, all: seq<nat>)
    requires |b| == |m| == |b'| == 16 && |all| == colons <= 8 && dc <= colons && Stored(b, 0, all)
    requires Moved(b, m, dc * 2, colons * 2, 16 - colons * 2)
    requires Cleared(m, b', dc * 2, 16 - colons * 2 + dc * 2)
    ensures GroupsOf(b') == all[..dc] + Zeros(8 - colons) + all[dc..]
  {
    forall k | dc * 2 <= k < colons * 2 ensures b'[k + (16 - colons * 2)] == b[k] {
      assert m[k + (16 - colons * 2)] == b[k];
    }
    ExpandedGroups(b, b', colons, dc, all);
  }

  lemma ExpandedGroups(b: seq<byte>, b': seq<byte>, colons: nat, dc: nat, all: seq<nat>)
    requires |b| == |b'| == 16 && |all| == colons <= 8 && dc <= colons && Stored(b, 0, all)
    requires forall k :: 0 <= k < dc * 2 ==> b'[k] == b[k]
    requires forall k :: dc * 2 <= k < 16 - colons * 2 + dc * 2 ==> b'[k] == 0
    requires forall k :: dc * 2 <= k < colons * 2 ==> b'[k + (16 - colons * 2)] == b[k]
    ensures GroupsOf(b') == all[..dc] + Zeros(8 - colons) + all[dc..]
  {
    hide GroupsOf, Word, Zeros, Stored;
    var gap := 8 - colons;
    var want := all[..dc] + Zeros(gap) + all[dc..];
    var g := GroupsOf(b');
    assert |want| == 8;
    forall i | 0 <= i < dc ensures g[i] == want[i] {
      StoredAt(b, all, i);
    }
    forall i | dc <= i < dc + gap ensures g[i] == want[i] {
      assert b'[2 * i] == 0 && b'[2 * i + 1] == 0;
      WordIsZero(b'[2 * i], b'[2 * i + 1]);
    }
    forall i | dc + gap <= i < 8 ensures g[i] == want[i] {
      var j := i - gap;
      assert b'[2 * j + (16 - colons * 2)] == b[2 * j];
      assert b'[2 * j + 1 + (16 - colons * 2)] == b[2 * j + 1];
      StoredAt(b, all, j);
    }
  }

  lemma StoredAt(b: seq<byte>, all: seq<nat>, i: nat)
    requires |b| == 16 && |all| <= 8 && Stored(b, 0, all) && i < |all|
    ensures all[i] == Word(b[2 * i], b[2 * i + 1])
  {
    hide Word;
    assert all[0 + i] == Word(b[2 * (0 + i)], b[2 * (0 + i) + 1]);
  }
}
