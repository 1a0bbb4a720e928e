/**
 The text forms of IP addresses, on values: what the two parsers accept and answer, and the canonical
 IPv6 form. Text is a sequence of character codes without a NUL.
 */
module IpText {
  import opened Common
  import opened PrintNumber

  const COLON: byte := ':' as int
  const DOT: byte := '.' as int

  // ----- Dotted quads

  /** The IPv4 scanner from one character on: `acc` is the octet being read, -1 before its first digit. */
  function Scan4(s: seq<byte>, acc: int, g: seq<byte>): (r: Option<seq<byte>>)
    requires -1 <= acc < 256 && |g| <= 3
    ensures r.Some? ==> |r.value| == 4
  {
    if s == [] then
      if |g| != 3 || acc < 0 then None else Some(g + [acc])
    else if 48 <= s[0] <= 57 then
      var acc' := if acc < 0 then s[0] - 48 else acc * 10 + (s[0] - 48);
      if acc' > 255 then None else Scan4(s[1..], acc', g)
    else if s[0] == DOT then
      if |g| == 3 || acc < 0 then None else Scan4(s[1..], -1, g + [acc])
    else None
  }

  lemma ScanDigit(lo: nat, rest: seq<byte>, acc: int, g: seq<byte>)
    requires lo < 10 && -1 <= acc < 256 && |g| <= 3
    ensures var acc' := (if acc < 0 then 0 else acc * 10) + lo;
      Scan4([DigitChar(lo)] + rest, acc, g) == if acc' > 255 then None else Scan4(rest, acc', g)
  {
    var s := [DigitChar(lo)] + rest;
    assert s[1..] == rest;
  }

  /** Reading one octet: any digits, leading zeros included, as long as the value fits. */
  lemma {:induction false} ScanOctet(ds: seq<nat>, rest: seq<byte>, g: seq<byte>)
    requires ds != [] && |g| <= 3 && forall i :: 0 <= i < |ds| ==> ds[i] < 10
    ensures Scan4(Text(ds) + rest, -1, g) == if Value(ds, 10) > 255 then None else Scan4(rest, Value(ds, 10), g)
  {
    var hi, lo := ds[..|ds| - 1], ds[|ds| - 1];
    var rest' := [DigitChar(lo)] + rest;
    assert Text(ds) + rest == Text(hi) + rest';
    ValueSnoc(ds, 10);
    ValueOfNone(10);
    assert hi == [] ==> Text(hi) + rest' == rest';
    hide Scan4, Value, Text;
    ScanDigit(lo, rest, -1, g);
    if hi != [] {
      ScanOctet(hi, rest', g);
      if Value(hi, 10) <= 255 {
        ScanDigit(lo, rest, Value(hi, 10), g);
      }
    }
  }

  /** Four digit strings with dots between them. */
  function Quad(a: seq<nat>, b: seq<nat>, c: seq<nat>, d: seq<nat>): seq<byte> {
    Text(a) + [DOT] + (Text(b) + [DOT] + (Text(c) + [DOT] + Text(d)))
  }

  ghost predicate Octet(ds: seq<nat>) {
    ds != [] && (forall i :: 0 <= i < |ds| ==> ds[i] < 10) && Value(ds, 10) <= 255
  }

  lemma ScanOctetDot(ds: seq<nat>, rest: seq<byte>, g: seq<byte>)
    requires Octet(ds) && |g| <= 2
    ensures Scan4(Text(ds) + [DOT] + rest, -1, g) == Scan4(rest, -1, g + [Value(ds, 10)])
  {
    assert Text(ds) + [DOT] + rest == Text(ds) + ([DOT] + rest);
    ScanOctet(ds, [DOT] + rest, g);
    assert ([DOT] + rest)[1..] == rest;
  }

  /** Every dotted quad is read as its four values. */
  lemma {:induction false} QuadIsRead(a: seq<nat>, b: seq<nat>, c: seq<nat>, d: seq<nat>)
    requires Octet(a) && Octet(b) && Octet(c) && Octet(d)
    ensures Scan4(Quad(a, b, c, d), -1, []) ==
            Some([Value(a, 10), Value(b, 10), Value(c, 10), Value(d, 10)])
  {
    hide Scan4, Text, Value;
    var tail2 := Text(c) + [DOT] + Text(d);
    var tail1 := Text(b) + [DOT] + tail2;
    assert Quad(a, b, c, d) == Text(a) + [DOT] + tail1;
    ScanOctetDot(a, tail1, []);
    ScanOctetDot(b, tail2, [Value(a, 10)]);
    ScanOctetDot(c, Text(d), [Value(a, 10), Value(b, 10)]);
    var g := [Value(a, 10), Value(b, 10), Value(c, 10)];
    assert [] + [Value(a, 10)] == [Value(a, 10)];
    assert [Value(a, 10)] + [Value(b, 10)] == [Value(a, 10), Value(b, 10)];
    assert [Value(a, 10), Value(b, 10)] + [Value(c, 10)] == g;
    ScanOctet(d, [], g);
    assert Text(d) + [] == Text(d);
    EndOfQuad(Value(d, 10), g);
    assert g + [Value(d, 10)] == [Value(a, 10), Value(b, 10), Value(c, 10), Value(d, 10)];
  }

  lemma EndOfQuad(acc: byte, g: seq<byte>)
    requires |g| == 3
    ensures Scan4([], acc, g) == Some(g + [acc])
  {}

  /** Text with any other character, such as a colon, is not a dotted quad. */
  lemma {:induction false} OtherCharacterFails(s: seq<byte>, acc: int, g: seq<byte>, i: nat)
    requires -1 <= acc < 256 && |g| <= 3 && i < |s|
    requires s[i] != DOT && !(48 <= s[i] <= 57)
    ensures Scan4(s, acc, g) == None
  {
    if i > 0 {
      if 48 <= s[0] <= 57 {
        var acc' := if acc < 0 then s[0] - 48 else acc * 10 + (s[0] - 48);
        if acc' <= 255 {
          OtherCharacterFails(s[1..], acc', g, i - 1);
        }
      } else if s[0] == DOT && |g| < 3 && acc >= 0 {
        OtherCharacterFails(s[1..], -1, g + [acc], i - 1);
      }
    }
  }

  /** The digits of a text of decimal digits. */
  function DigitsOf(t: seq<byte>): (ds: seq<nat>)
    requires forall i :: 0 <= i < |t| ==> 48 <= t[i] <= 57
    ensures |ds| == |t| && forall i :: 0 <= i < |ds| ==> ds[i] < 10
  {
    seq(|t|, i requires 0 <= i < |t| => t[i] - 48)
  }

  lemma TextOfDigits(t: seq<byte>)
    requires forall i :: 0 <= i < |t| ==> 48 <= t[i] <= 57
    ensures Text(DigitsOf(t)) == t
  {}

  /** An octet at the front of an accepted text, and what follows it: nothing, or a dot. */
  lemma {:induction false} SplitOctet(s: seq<byte>, g: seq<byte>) returns (ds: seq<nat>, rest: seq<byte>)
    requires |g| <= 3 && Scan4(s, -1, g).Some?
    ensures Octet(ds) && s == Text(ds) + rest
    ensures Scan4(s, -1, g) == Scan4(rest, Value(ds, 10), g)
    ensures if |g| == 3 then rest == [] else rest != [] && rest[0] == DOT && Scan4(s, -1, g) == Scan4(rest[1..], -1, g + [Value(ds, 10)])
  {
    hide Scan4, Text, Value;
    var k := 0;
    while k < |s| && 48 <= s[k] <= 57
      invariant 0 <= k <= |s| && forall i :: 0 <= i < k ==> 48 <= s[i] <= 57
    {
      k := k + 1;
    }
    ds, rest := DigitsOf(s[..k]), s[k..];
    TextOfDigits(s[..k]);
    assert s == Text(ds) + rest;
    if k == 0 {
      NoOctet(s, g);
    }
    ScanOctet(ds, rest, g);
    OctetEnds(rest, Value(ds, 10), g);
  }

  lemma NoOctet(s: seq<byte>, g: seq<byte>)
    requires |g| <= 3 && (s == [] || !(48 <= s[0] <= 57))
    ensures Scan4(s, -1, g) == None
  {}

  lemma OctetEnds(rest: seq<byte>, acc: byte, g: seq<byte>)
    requires |g| <= 3 && (rest == [] || !(48 <= rest[0] <= 57)) && Scan4(rest, acc, g).Some?
    ensures if |g| == 3 then rest == []
      else rest != [] && rest[0] == DOT && Scan4(rest, acc, g) == Scan4(rest[1..], -1, g + [acc])
  {}

  /** The text is four octets with these values. */
  ghost predicate IsQuad(s: seq<byte>, v: seq<byte>, a: seq<nat>, b: seq<nat>, c: seq<nat>, d: seq<nat>) {
    && Octet(a) && Octet(b) && Octet(c) && Octet(d)
    && s == Quad(a, b, c, d) && v == [Value(a, 10), Value(b, 10), Value(c, 10), Value(d, 10)]
  }

  /** The IPv4 parser accepts the dotted quads and nothing else. */
  lemma {:induction false} AcceptedQuads(s: seq<byte>, v: seq<byte>)
    ensures Scan4(s, -1, []) == Some(v) <==> exists a, b, c, d :: IsQuad(s, v, a, b, c, d)
  {
    hide Scan4, Octet;
    if Scan4(s, -1, []) == Some(v) {
      var a, b, c, d := SplitQuad(s);
      QuadIsRead(a, b, c, d);
      assert IsQuad(s, v, a, b, c, d);
    }
    if exists a, b, c, d :: IsQuad(s, v, a, b, c, d) {
      var a, b, c, d :| IsQuad(s, v, a, b, c, d);
      QuadIsRead(a, b, c, d);
    }
  }

  lemma {:induction false} SplitQuad(s: seq<byte>) returns (a: seq<nat>, b: seq<nat>, c: seq<nat>, d: seq<nat>)
    requires Scan4(s, -1, []).Some?
    ensures Octet(a) && Octet(b) && Octet(c) && Octet(d) && s == Quad(a, b, c, d)
  {
    hide Scan4, Text, Value;
    var s1, s2, s3, s4;
    a, s1 := SplitOctet(s, []);
    var g1 := [] + [Value(a, 10)];
    b, s2 := SplitOctet(s1[1..], g1);
    var g2 := g1 + [Value(b, 10)];
    c, s3 := SplitOctet(s2[1..], g2);
    d, s4 := SplitOctet(s3[1..], g2 + [Value(c, 10)]);
    assert Text(d) + s4 == Text(d);
    DotNext(Text(a), s1);
    DotNext(Text(b), s2);
    DotNext(Text(c), s3);
  }

  lemma DotNext(t: seq<byte>, s: seq<byte>)
    requires s != [] && s[0] == DOT
    ensures t + s == t + [DOT] + s[1..]
  {}

  // ----- Colon-separated groups

  /** The group being read, the groups stored, and where "::" was seen, or -1. */
  datatype Scan = Scan(acc: nat, g: seq<nat>, dc: int)

  ghost predicate ScanOk(st: Scan) {
    st.acc <= 0xffff && |st.g| <= 7 && -1 <= st.dc <= |st.g| && forall i :: 0 <= i < |st.g| ==> st.g[i] <= 0xffff
  }

  /** The IPv6 scanner from one character on. */
  function Scan6(s: seq<byte>, st: Scan): (r: Option<Scan>)
    requires ScanOk(st)
    ensures r.Some? ==> ScanOk(r.value)
    decreases |s|
  {
    if s == [] then Some(st)
    else if HexVal(s[0]).Some? then
      var acc := st.acc * 16 + HexVal(s[0]).value;
      if acc > 0xffff then None else Scan6(s[1..], st.(acc := acc))
    else if s[0] == COLON then
      if |s| > 1 && s[1] == COLON then
        if st.dc >= 0 || (|s| > 2 && s[2] == COLON) || |st.g| == 7 then None
        else Scan6(s[2..], Scan(0, st.g + [st.acc], |st.g| + if st.acc != 0 then 1 else 0))
      else if |s| == 1 || |st.g| == 7 then None
      else Scan6(s[1..], Scan(0, st.g + [st.acc], st.dc))
    else None
  }

  /** One character of the IPv6 scan. */
  lemma ScanStep(s: seq<byte>, st: Scan)
    requires s != [] && ScanOk(st)
    ensures HexVal(s[0]).Some? ==>
      var acc := st.acc * 16 + HexVal(s[0]).value;
      if acc > 0xffff then Scan6(s, st) == None
      else ScanOk(st.(acc := acc)) && Scan6(s, st) == Scan6(s[1..], st.(acc := acc))
    ensures HexVal(s[0]).None? && s[0] != COLON ==> Scan6(s, st) == None
    ensures s[0] == COLON && |s| > 1 && s[1] == COLON ==>
      if st.dc >= 0 || (|s| > 2 && s[2] == COLON) || |st.g| == 7 then Scan6(s, st) == None
      else
        var st' := Scan(0, st.g + [st.acc], |st.g| + if st.acc != 0 then 1 else 0);
        ScanOk(st') && Scan6(s, st) == Scan6(s[2..], st')
    ensures s[0] == COLON && !(|s| > 1 && s[1] == COLON) ==>
      if |s| == 1 || |st.g| == 7 then Scan6(s, st) == None
      else
        var st' := Scan(0, st.g + [st.acc], st.dc);
        ScanOk(st') && Scan6(s, st) == Scan6(s[1..], st')
  {}

  function Zeros(n: nat): (z: seq<nat>)
    ensures |z| == n && forall i :: 0 <= i < n ==> z[i] == 0
  {
    seq(n, _ => 0)
  }

  /** The checks and the expansion of "::" at the end of the text. */
  function Finish(st: Scan): (r: Option<seq<nat>>)
    requires ScanOk(st)
    ensures r.Some? ==> |r.value| == 8 && forall i :: 0 <= i < 8 ==> r.value[i] <= 0xffff
  {
    var all := st.g + [st.acc];
    if st.dc == -1 then
      if |st.g| != 7 then None else Some(all)
    else if |st.g| > 6 then None
    else Some(all[..st.dc] + Zeros(8 - |all|) + all[st.dc..])
  }

  /** What `fromString6` answers. */
  function Parse6(s: seq<byte>): (r: Option<seq<nat>>)
    ensures r.Some? ==> |r.value| == 8 && forall i :: 0 <= i < 8 ==> r.value[i] <= 0xffff
  {
    var st := Scan6(s, Scan(0, [], -1));
    if st.None? then None else Finish(st.value)
  }

  // ----- Texts of section 2.2 of RFC 4291

  ghost predicate Group(tok: seq<byte>) {
    tok != [] && (forall i :: 0 <= i < |tok| ==> HexVal(tok[i]).Some?) && HexValue(tok) <= 0xffff
  }

  ghost predicate Groups(toks: seq<seq<byte>>) {
    forall i :: 0 <= i < |toks| ==> Group(toks[i])
  }

  ghost function Values(toks: seq<seq<byte>>): (vs: seq<nat>)
    requires Groups(toks)
    ensures |vs| == |toks| && forall i :: 0 <= i < |vs| ==> vs[i] == HexValue(toks[i]) && vs[i] <= 0xffff
  {
    seq(|toks|, i requires 0 <= i < |toks| => HexValue(toks[i]))
  }

  /** The groups with colons between them. */
  function Join(toks: seq<seq<byte>>): seq<byte> {
    if toks == [] then [] else if |toks| == 1 then toks[0] else toks[0] + [COLON] + Join(toks[1..])
  }

  lemma {:induction false} ScanGroup(tok: seq<byte>, rest: seq<byte>, g: seq<nat>, dc: int)
    requires forall i :: 0 <= i < |tok| ==> HexVal(tok[i]).Some?
    requires ScanOk(Scan(0, g, dc))
    ensures Scan6(tok + rest, Scan(0, g, dc)) ==
            if HexValue(tok) > 0xffff then None else Scan6(rest, Scan(HexValue(tok), g, dc))
  {
    if tok == [] {
      assert tok + rest == rest;
    } else {
      var hi, lo := tok[..|tok| - 1], tok[|tok| - 1];
      var rest' := [lo] + rest;
      assert tok + rest == hi + rest';
      assert rest'[1..] == rest;
      ScanGroup(hi, rest', g, dc);
    }
  }

  lemma ScanOneColon(more: seq<byte>, st: Scan)
    requires ScanOk(st) && |st.g| < 7 && more != [] && HexVal(more[0]).Some?
    ensures ScanOk(Scan(0, st.g + [st.acc], st.dc))
    ensures Scan6([COLON] + more, st) == Scan6(more, Scan(0, st.g + [st.acc], st.dc))
  {
    var s := [COLON] + more;
    assert s[1..] == more;
  }

  /** The scanner's state when it has read groups vs after those in g: the last one is still open. */
  function Reading(g: seq<nat>, dc: int, vs: seq<nat>): Scan
    requires vs != []
  {
    Scan(vs[|vs| - 1], g + vs[..|vs| - 1], dc)
  }

  lemma ReadingOk(g: seq<nat>, dc: int, vs: seq<nat>)
    requires vs != [] && ScanOk(Scan(0, g, dc)) && |g| + |vs| <= 8
    requires forall i :: 0 <= i < |vs| ==> vs[i] <= 0xffff
    ensures ScanOk(Reading(g, dc, vs)) && Reading(g, dc, vs).g + [Reading(g, dc, vs).acc] == g + vs
    ensures |vs| == 1 ==> Reading(g, dc, vs) == Scan(vs[0], g, dc)
    ensures |vs| > 1 ==> Reading(g, dc, vs) == Reading(g + [vs[0]], dc, vs[1..])
  {
    if |vs| > 1 {
      assert g + [vs[0]] + vs[1..][..|vs| - 2] == g + vs[..|vs| - 1];
    }
  }

  lemma {:induction false} ScanJoin(toks: seq<seq<byte>>, rest: seq<byte>, g: seq<nat>, dc: int)
    requires toks != [] && Groups(toks) && ScanOk(Scan(0, g, dc)) && |g| + |toks| <= 8
    ensures ScanOk(Reading(g, dc, Values(toks)))
    ensures Reading(g, dc, Values(toks)).g + [Reading(g, dc, Values(toks)).acc] == g + Values(toks)
    ensures Scan6(Join(toks) + rest, Scan(0, g, dc)) == Scan6(rest, Reading(g, dc, Values(toks)))
  {
    hide Scan6, Join, HexValue, Reading;
    var vs := Values(toks);
    ReadingOk(g, dc, vs);
    JoinTurn(toks, rest);
    if |toks| == 1 {
      ScanGroup(toks[0], rest, g, dc);
    } else {
      var tail := toks[1..];
      var more := Join(tail) + rest;
      JoinStartsWithDigit(tail);
      ScanGroup(toks[0], [COLON] + more, g, dc);
      ScanOneColon(more, Scan(vs[0], g, dc));
      ScanJoin(tail, rest, g + [vs[0]], dc);
    }
  }

  lemma {:induction false} JoinTurn(toks: seq<seq<byte>>, rest: seq<byte>)
    requires toks != [] && Groups(toks)
    ensures |toks| == 1 ==> Join(toks) == toks[0]
    ensures |toks| > 1 ==>
      && Join(toks) + rest == toks[0] + ([COLON] + (Join(toks[1..]) + rest))
      && Values(toks[1..]) == Values(toks)[1..]
  {
    ValuesTail(toks);
    if |toks| > 1 {
      var t, j := toks[0], Join(toks[1..]);
      assert Join(toks) == t + [COLON] + j;
      hide Join, HexValue, Values;
      Assoc(t + [COLON], j, rest);
      Assoc(t, [COLON], j + rest);
    }
  }

  lemma ValuesTail(toks: seq<seq<byte>>)
    requires toks != [] && Groups(toks)
    ensures Values(toks[1..]) == Values(toks)[1..]
  {
    hide HexValue;
  }

  lemma JoinStartsWithDigit(toks: seq<seq<byte>>)
    requires toks != [] && Groups(toks)
    ensures Join(toks) != [] && HexVal(Join(toks)[0]).Some?
  {
    assert Group(toks[0]);
  }

  /** More groups than the array holds are refused. */
  lemma {:induction false} ScanJoinOverflow(toks: seq<seq<byte>>, rest: seq<byte>, g: seq<nat>, dc: int)
    requires Groups(toks) && ScanOk(Scan(0, g, dc)) && |g| + |toks| > 8
    ensures Scan6(Join(toks) + rest, Scan(0, g, dc)) == None
    decreases |toks|
  {
    var more := Join(toks[1..]) + rest;
    assert Join(toks) + rest == toks[0] + ([COLON] + more);
    ScanGroup(toks[0], [COLON] + more, g, dc);
    JoinStartsWithDigit(toks[1..]);
    assert ([COLON] + more)[1..] == more;
    if |g| < 7 {
      ScanJoinOverflow(toks[1..], rest, g + [HexValue(toks[0])], dc);
    }
  }

  /** Groups without "::" are read as their values exactly when there are eight. */
  lemma {:induction false} FullFormIsRead(toks: seq<seq<byte>>)
    requires Groups(toks)
    ensures Parse6(Join(toks)) == if |toks| == 8 then Some(Values(toks)) else None
  {
    hide Scan6, Join, Groups;
    var st0 := Scan(0, [], -1);
    assert Join(toks) + [] == Join(toks);
    if |toks| > 8 {
      ScanJoinOverflow(toks, [], [], -1);
    } else if toks == [] {
      JoinEmpty();
      ScanEnd(st0);
    } else {
      ScanJoin(toks, [], [], -1);
      ScanEnd(Reading([], -1, Values(toks)));
      assert [] + Values(toks) == Values(toks);
    }
  }

  /** "::" between two possibly empty lists of groups. */
  function Compressed(l: seq<seq<byte>>, r: seq<seq<byte>>): seq<byte> {
    Join(l) + [COLON, COLON] + Join(r)
  }

  /** An empty side still counts as one group for the parser. */
  function Slots(toks: seq<seq<byte>>): nat {
    if toks == [] then 1 else |toks|
  }

  lemma ScanColons(rest: seq<byte>, st: Scan)
    requires ScanOk(st) && st.dc == -1 && |st.g| < 7 && (rest == [] || rest[0] != COLON)
    ensures var st' := Scan(0, st.g + [st.acc], |st.g| + if st.acc != 0 then 1 else 0);
      ScanOk(st') && Scan6([COLON, COLON] + rest, st) == Scan6(rest, st')
  {
    var s := [COLON, COLON] + rest;
    assert s[2..] == rest;
    assert HexVal(s[0]) == None;
  }

  lemma ScanEnd(st: Scan)
    requires ScanOk(st)
    ensures Scan6([], st) == Some(st)
  {}

  /** What the left side stores, with the split point: after it, or before a last group that is zero. */
  lemma {:induction false} ScanLeft(l: seq<seq<byte>>, rest: seq<byte>, vs: seq<nat>) returns (dc: nat)
    requires Groups(l) && Slots(l) <= 7 && (rest == [] || rest[0] != COLON)
    requires vs == if l == [] then [0] else Values(l)
    ensures ScanOk(Scan(0, vs, dc))
    ensures dc == |vs| || (dc == |vs| - 1 && vs[dc] == 0)
    ensures l == [] ==> dc == 0
    ensures Scan6(Join(l) + ([COLON, COLON] + rest), Scan(0, [], -1)) == Scan6(rest, Scan(0, vs, dc))
  {
    hide Scan6, Join, HexValue, Groups;
    var s := [COLON, COLON] + rest;
    if l == [] {
      JoinEmpty();
      assert Join(l) + s == s;
      assert [] + [0] == vs;
      ScanColons(rest, Scan(0, [], -1));
      dc := 0;
    } else {
      dc := ScanLeftGroups(l, rest, vs);
    }
  }

  lemma {:induction false} ScanLeftGroups(l: seq<seq<byte>>, rest: seq<byte>, vs: seq<nat>) returns (dc: nat)
    requires l != [] && Groups(l) && |l| <= 7 && (rest == [] || rest[0] != COLON) && vs == Values(l)
    ensures ScanOk(Scan(0, vs, dc))
    ensures dc == |vs| || (dc == |vs| - 1 && vs[dc] == 0)
    ensures Scan6(Join(l) + ([COLON, COLON] + rest), Scan(0, [], -1)) == Scan6(rest, Scan(0, vs, dc))
  {
    hide Scan6, Join, HexValue, Groups, HexVal;
    ScanJoin(l, [COLON, COLON] + rest, [], -1);
    assert [] + vs == vs;
    var st := Reading([], -1, vs);
    ScanColons(rest, st);
    dc := |st.g| + if st.acc != 0 then 1 else 0;
  }

  /** Splitting before a zero group, or filling an absent side with one, gives the same eight groups. */
  lemma Expansion(a: seq<nat>, b: seq<nat>, vs: seq<nat>, ws: seq<nat>, dc: nat)
    requires vs == (if a == [] then [0] else a) && ws == (if b == [] then [0] else b)
    requires |vs| + |ws| <= 7 && dc <= |vs| && (dc == |vs| || (dc == |vs| - 1 && vs[dc] == 0))
    requires a == [] ==> dc == 0
    ensures (vs + ws)[..dc] + Zeros(8 - |vs + ws|) + (vs + ws)[dc..] == a + Zeros(8 - |a| - |b|) + b
  {
    var all := vs + ws;
    var out := all[..dc] + Zeros(8 - |all|) + all[dc..];
    var want := a + Zeros(8 - |a| - |b|) + b;
    assert |out| == 8 == |want|;
    forall i | 0 <= i < 8 ensures out[i] == want[i] {
      if i < dc {
      } else if i < dc + 8 - |all| {
      } else {
        assert out[i] == all[i - (8 - |all|)];
      }
    }
  }

  lemma {:induction false} ScanRight(r: seq<seq<byte>>, vs: seq<nat>, dc: nat, ws: seq<nat>)
    requires Groups(r) && ScanOk(Scan(0, vs, dc)) && |vs| + |ws| <= 8
    requires ws == if r == [] then [0] else Values(r)
    ensures ScanOk(Reading(vs, dc, ws)) && Scan6(Join(r), Scan(0, vs, dc)) == Some(Reading(vs, dc, ws))
  {
    hide Scan6, Join, HexValue, Groups;
    ReadingOk(vs, dc, ws);
    if r == [] {
      JoinEmpty();
    } else {
      ScanJoin(r, [], vs, dc);
      assert Join(r) + [] == Join(r);
    }
    ScanEnd(Reading(vs, dc, ws));
  }

  /** The final step on what the two sides stored. */
  lemma {:induction false} FinishJoined(a: seq<nat>, b: seq<nat>, vs: seq<nat>, ws: seq<nat>, dc: nat)
    requires vs == (if a == [] then [0] else a) && ws == (if b == [] then [0] else b)
    requires dc == |vs| || (dc == |vs| - 1 && vs[dc] == 0)
    requires a == [] ==> dc == 0
    requires ScanOk(Reading(vs, dc, ws))
    ensures Finish(Reading(vs, dc, ws)) ==
      if |vs| + |ws| <= 7 then Some(a + Zeros(8 - |a| - |b|) + b) else None
  {
    var m := |ws|;
    assert vs + ws[..m - 1] + [ws[m - 1]] == vs + ws;
    if |vs| + |ws| <= 7 {
      Expansion(a, b, vs, ws, dc);
    }
  }

  /** A left side of eight groups or more leaves no room for "::". */
  lemma {:induction false} ScanLeftOverflow(l: seq<seq<byte>>, s: seq<byte>)
    requires Groups(l) && |l| >= 8 && |s| >= 2 && s[..2] == [COLON, COLON]
    ensures Scan6(Join(l) + s, Scan(0, [], -1)) == None
  {
    if |l| > 8 {
      ScanJoinOverflow(l, s, [], -1);
    } else {
      ScanJoin(l, s, [], -1);
    }
  }

  /**
   Every compressed text is read as the left groups, zeros, and the right groups, if the two sides leave
   room for the parser's count of them, and is refused otherwise: an empty side counts as one group, so
   a "::" at either end must stand for at least two.
   */
  lemma {:induction false} CompressedFormIsRead(l: seq<seq<byte>>, r: seq<seq<byte>>)
    requires Groups(l) && Groups(r)
    ensures Slots(l) + Slots(r) <= 7 ==>
      Parse6(Compressed(l, r)) == Some(Values(l) + Zeros(8 - |l| - |r|) + Values(r))
    ensures Slots(l) + Slots(r) > 7 ==> Parse6(Compressed(l, r)) == None
  {
    hide Scan6, Join, Groups;
    var rest := Join(r);
    if r == [] { JoinEmpty(); } else { JoinStartsWithDigit(r); }
    assert Compressed(l, r) == Join(l) + ([COLON, COLON] + rest);
    if |l| >= 8 {
      ScanLeftOverflow(l, [COLON, COLON] + rest);
      return;
    }
    var vs := if l == [] then [0] else Values(l);
    var ws := if r == [] then [0] else Values(r);
    var dc := ScanLeft(l, rest, vs);
    if |vs| + |ws| > 8 {
      ScanJoinOverflow(r, [], vs, dc);
      assert rest + [] == rest;
      return;
    }
    ScanRight(r, vs, dc, ws);
    FinishJoined(Values(l), Values(r), vs, ws, dc);
  }

  lemma JoinEmpty()
    ensures Join([]) == []
  {}

  // ----- Everything that is accepted

  const ZERO: byte := '0' as int

  /** A zero in front of a text makes no difference, whether its first group is there or missing. */
  lemma ZeroInFront(s: seq<byte>)
    ensures Parse6([ZERO] + s) == Parse6(s)
  {
    hide Finish;
    var st := Scan(0, [], -1);
    assert ([ZERO] + s)[1..] == s;
    assert Scan6([ZERO] + s, st) == Scan6(s, st.(acc := 0 * 16 + 0));
  }

  ghost predicate FullText(s: seq<byte>, v: seq<nat>, toks: seq<seq<byte>>) {
    Groups(toks) && |toks| == 8 && s == Join(toks) && v == Values(toks)
  }

  ghost predicate CompressedText(s: seq<byte>, v: seq<nat>, l: seq<seq<byte>>, r: seq<seq<byte>>) {
    && Groups(l) && Groups(r) && Slots(l) + Slots(r) <= 7
    && s == Compressed(l, r) && v == Values(l) + Zeros(8 - |l| - |r|) + Values(r)
  }

  /** One of the two forms, with its value. */
  ghost predicate Listed(s: seq<byte>, v: seq<nat>) {
    (exists toks :: FullText(s, v, toks)) || (exists l, r :: CompressedText(s, v, l, r))
  }

  /**
   Exactly what `fromString6` accepts, and as what: the two forms, and, beyond them, texts that begin
   with a single colon, whose missing first group is 0.
   */
  lemma {:induction false} AcceptedTexts(s: seq<byte>, v: seq<nat>)
    ensures Parse6(s) == Some(v) <==> Listed(s, v) || (s != [] && s[0] == COLON && Listed([ZERO] + s, v))
  {
    hide Parse6, Listed;
    ListedIsRead(s, v);
    ListedIsRead([ZERO] + s, v);
    ZeroInFront(s);
    if Parse6(s) == Some(v) {
      NotNothing();
      if HexVal(s[0]).Some? {
        AcceptedIsListed(s, v);
      } else {
        AcceptedIsListed([ZERO] + s, v);
        FirstCharacter(s);
      }
    }
  }

  /** The case of the letters does not matter to `fromString6`. */
  lemma {:induction false} ParseIgnoresCase(s: seq<byte>)
    ensures Parse6(LowerText(s)) == Parse6(s)
  {
    ScanIgnoresCase(s, Scan(0, [], -1));
  }

  lemma {:induction false} ScanIgnoresCase(s: seq<byte>, st: Scan)
    requires ScanOk(st)
    ensures Scan6(LowerText(s), st) == Scan6(s, st)
    decreases |s|
  {
    hide Scan6, HexVal, Lower;
    var t := LowerText(s);
    if s == [] { return; }
    SameColons();
    HexIgnoresCase(s);
    assert t[1..] == LowerText(s[1..]);
    ScanStep(s, st);
    ScanStep(t, st);
    if HexVal(s[0]).Some? {
      var acc := st.acc * 16 + HexVal(s[0]).value;
      if acc <= 0xffff { ScanIgnoresCase(s[1..], st.(acc := acc)); }
    } else if s[0] == COLON {
      if |s| > 1 && s[1] == COLON {
        assert t[2..] == LowerText(s[2..]);
        var st' := Scan(0, st.g + [st.acc], |st.g| + if st.acc != 0 then 1 else 0);
        if ScanOk(st') { ScanIgnoresCase(s[2..], st'); }
      } else {
        var st' := Scan(0, st.g + [st.acc], st.dc);
        if ScanOk(st') { ScanIgnoresCase(s[1..], st'); }
      }
    }
  }

  lemma SameColons()
    ensures forall c: byte :: Lower(c) == COLON <==> c == COLON
  {}

  /** Seven groups behind a colon. */
  lemma {:induction false} LeadingColon(toks: seq<seq<byte>>)
    requires Groups(toks) && |toks| == 7
    ensures Parse6([COLON] + Join(toks)) == Some([0] + Values(toks))
  {
    hide Parse6, Join, Values;
    ZeroGroup();
    var all := [[ZERO]] + toks;
    assert all[1..] == toks;
    var more := [COLON] + Join(toks);
    assert more[1..] == Join(toks) + [] && Join(all) + [] == Join(all);
    JoinFront([ZERO], toks, [], more);
    ValuesFirst(all);
    FullFormIsRead(all);
    ZeroInFront(more);
  }

  lemma ZeroGroup()
    ensures Group([ZERO]) && HexValue([ZERO]) == 0
  {}

  lemma ValuesFirst(toks: seq<seq<byte>>)
    requires toks != [] && Groups(toks)
    ensures Values(toks) == [HexValue(toks[0])] + Values(toks[1..])
  {
    hide HexValue;
  }

  lemma NotNothing()
    ensures Parse6([]) == None
  {}

  lemma FirstCharacter(s: seq<byte>)
    requires s != [] && Parse6(s).Some?
    ensures HexVal(s[0]).Some? || s[0] == COLON
  {}

  lemma {:induction false} ListedIsRead(s: seq<byte>, v: seq<nat>)
    ensures Listed(s, v) ==> Parse6(s) == Some(v)
  {
    hide Parse6, Join, Compressed, Values, Zeros, Groups;
    if exists toks :: FullText(s, v, toks) {
      var toks :| FullText(s, v, toks);
      FullFormIsRead(toks);
    } else if exists l, r :: CompressedText(s, v, l, r) {
      var l, r :| CompressedText(s, v, l, r);
      CompressedFormIsRead(l, r);
    }
  }

  lemma {:induction false} AcceptedIsListed(s: seq<byte>, v: seq<nat>)
    requires Parse6(s) == Some(v) && s != [] && HexVal(s[0]).Some?
    ensures Listed(s, v)
  {
    hide Finish, Scan6, Join, HexVal, HexValue, Values, Zeros, Groups;
    var l, rest, st := SplitGroups(s, [], -1);
    if rest == [] {
      assert Join(l) + rest == Join(l);
      FullFormIsRead(l);
      assert FullText(s, v, l);
    } else {
      var r := SplitBehind(rest, st);
      assert Compressed(l, r) == Join(l) + rest;
      CompressedFormIsRead(l, r);
      assert CompressedText(s, v, l, r);
    }
  }

  /** The groups at the front of an accepted text, up to its end or to a "::". */
  lemma {:induction false} SplitGroups(s: seq<byte>, g: seq<nat>, dc: int)
      returns (toks: seq<seq<byte>>, rest: seq<byte>, st: Scan)
    requires ScanOk(Scan(0, g, dc)) && Scan6(s, Scan(0, g, dc)).Some? && s != [] && HexVal(s[0]).Some?
    ensures toks != [] && Groups(toks) && s == Join(toks) + rest
    ensures rest == [] || (|rest| >= 2 && rest[..2] == [COLON, COLON])
    ensures ScanOk(st) && st.dc == dc && Scan6(rest, st) == Scan6(s, Scan(0, g, dc))
    decreases |s|
  {
    hide Scan6, Join, HexVal, HexValue;
    var tok, more := SplitGroup(s);
    ScanGroup(tok, more, g, dc);
    var value := HexValue(tok);
    st := Scan(value, g, dc);
    assert Group(tok);
    NextSeparator(more, st);
    if more == [] || (|more| >= 2 && more[1] == COLON) {
      toks, rest := [tok], more;
      JoinOne(tok);
    } else {
      var tail;
      tail, rest, st := SplitGroups(more[1..], g + [value], dc);
      toks := [tok] + tail;
      JoinFront(tok, tail, rest, more);
    }
  }

  /** The hexadecimal digits at the front. */
  lemma SplitGroup(s: seq<byte>) returns (tok: seq<byte>, more: seq<byte>)
    requires s != [] && HexVal(s[0]).Some?
    ensures tok != [] && s == tok + more && |more| < |s|
    ensures forall i :: 0 <= i < |tok| ==> HexVal(tok[i]).Some?
    ensures more == [] || HexVal(more[0]).None?
  {
    hide HexVal;
    var k := 1;
    while k < |s| && HexVal(s[k]).Some?
      invariant 1 <= k <= |s| && forall i :: 0 <= i < k ==> HexVal(s[i]).Some?
    {
      k := k + 1;
    }
    tok, more := s[..k], s[k..];
  }

  /** Behind a group comes the end, "::", or a colon with the next group. */
  lemma NextSeparator(s: seq<byte>, st: Scan)
    requires ScanOk(st) && Scan6(s, st).Some? && (s == [] || HexVal(s[0]).None?)
    ensures s != [] ==> |s| >= 2 && s[0] == COLON
    ensures s != [] && s[1] != COLON ==>
      && HexVal(s[1]).Some? && ScanOk(Scan(0, st.g + [st.acc], st.dc))
      && Scan6(s, st) == Scan6(s[1..], Scan(0, st.g + [st.acc], st.dc))
  {
    hide HexVal, Scan6;
    if s != [] {
      ScanStep(s, st);
      if |s| > 1 && s[0] == COLON && s[1] != COLON {
        ScanStep(s[1..], Scan(0, st.g + [st.acc], st.dc));
      }
    }
  }

  /** What is behind a "::": nothing, or groups up to the end of the text. */
  lemma {:induction false} SplitBehind(s: seq<byte>, st: Scan) returns (r: seq<seq<byte>>)
    requires ScanOk(st) && Scan6(s, st).Some? && |s| >= 2 && s[..2] == [COLON, COLON]
    ensures Groups(r) && s == [COLON, COLON] + Join(r)
  {
    hide Scan6, Join, HexVal;
    assert s[0] == COLON && s[1] == COLON;
    ScanStep(s, st);
    ColonIsNoDigit();
    var behind := s[2..];
    if behind == [] {
      r := [];
      JoinEmpty();
    } else {
      var st' := Scan(0, st.g + [st.acc], |st.g| + if st.acc != 0 then 1 else 0);
      assert behind[0] == s[2];
      ScanStep(behind, st');
      var rest, end;
      r, rest, end := SplitGroups(behind, st'.g, st'.dc);
      if rest != [] {
        assert rest[0] == rest[..2][0] && rest[1] == rest[..2][1];
        ScanStep(rest, end);
      }
      assert Join(r) + [] == Join(r);
    }
  }

  lemma ColonIsNoDigit()
    ensures HexVal(COLON) == None
  {}

  lemma JoinOne(tok: seq<byte>)
    ensures Join([tok]) == tok
  {}

  lemma JoinFront(tok: seq<byte>, tail: seq<seq<byte>>, rest: seq<byte>, more: seq<byte>)
    requires Group(tok) && tail != [] && Groups(tail) && more != [] && more[0] == COLON && more[1..] == Join(tail) + rest
    ensures Groups([tok] + tail) && Join([tok] + tail) + rest == tok + more
  {
    hide Join, HexVal, HexValue;
    var all := [tok] + tail;
    assert all[1..] == tail;
    JoinTurn(all, rest);
    assert more == [COLON] + more[1..];
  }

  // ----- Printed forms

  /** The lower-case character of a hexadecimal digit. */
  function HexChar(d: nat): (c: byte)
    requires d < 16
    ensures HexVal(c) == Some(d) && !(65 <= c <= 70)
  {
    if d < 10 then 48 + d else 97 + d - 10
  }

  function HexChars(ds: seq<nat>): (t: seq<byte>)
    requires forall i :: 0 <= i < |ds| ==> ds[i] < 16
    ensures |t| == |ds| && forall i :: 0 <= i < |t| ==> HexVal(t[i]) == Some(ds[i]) && !(65 <= t[i] <= 70)
  {
    seq(|ds|, i requires 0 <= i < |ds| => HexChar(ds[i]))
  }

  /** The canonical text of one group: the digits of its value, no leading zeros. */
  function HexText(v: nat): seq<byte> {
    HexChars(Digits(v, 16))
  }

  lemma {:induction false} HexValueOfChars(ds: seq<nat>)
    requires forall i :: 0 <= i < |ds| ==> ds[i] < 16
    ensures HexValue(HexChars(ds)) == Value(ds, 16)
  {
    if ds != [] {
      HexValueOfChars(ds[..|ds| - 1]);
      assert HexChars(ds)[..|ds| - 1] == HexChars(ds[..|ds| - 1]);
    }
  }

  /** A printed group is a group with the right value; only zero itself starts with the digit 0. */
  lemma HexTextIsGroup(v: nat)
    requires v <= 0xffff
    ensures Group(HexText(v)) && HexValue(HexText(v)) == v
    ensures HexText(v)[0] == 48 <==> v == 0
  {
    DigitsDenote(v, 16);
    HexValueOfChars(Digits(v, 16));
    assert HexVal(HexText(v)[0]) == Some(Digits(v, 16)[0]);
    if v == 0 { assert Digits(v, 16) == [0]; }
  }

  function Tokens(g: seq<nat>): (ts: seq<seq<byte>>)
    ensures |ts| == |g|
  {
    seq(|g|, i requires 0 <= i < |g| => HexText(g[i]))
  }

  lemma TokensAreGroups(g: seq<nat>)
    requires forall i :: 0 <= i < |g| ==> g[i] <= 0xffff
    ensures Groups(Tokens(g)) && Values(Tokens(g)) == g
  {
    forall i | 0 <= i < |g| ensures Group(Tokens(g)[i]) && HexValue(Tokens(g)[i]) == g[i] {
      HexTextIsGroup(g[i]);
    }
  }

  /** The text with groups start .. start + len replaced by "::", or all eight groups if start is -1. */
  function Text6(g: seq<nat>, start: int, len: int): seq<byte>
    requires start == -1 || 0 <= start <= start + len <= |g|
  {
    if start < 0 then Join(Tokens(g)) else Compressed(Tokens(g[..start]), Tokens(g[start + len..]))
  }

  ghost predicate ZeroRun(g: seq<nat>, start: int, len: int) {
    0 <= start <= start + len <= |g| && forall i :: start <= i < start + len ==> g[i] == 0
  }

  /** The leftmost of the longest runs of two or more zero groups; -1 if there is none. */
  ghost predicate LeftmostLongest(g: seq<nat>, start: int, len: int) {
    if start == -1 then forall s :: !ZeroRun(g, s, 2)
    else len >= 2 && ZeroRun(g, start, len) && forall s, l :: ZeroRun(g, s, l) ==> l < len || (l == len && start <= s)
  }

  lemma LeftmostLongestUnique(g: seq<nat>, s: int, l: int, s': int, l': int)
    requires LeftmostLongest(g, s, l) && LeftmostLongest(g, s', l')
    ensures s == s' && (s != -1 ==> l == l')
  {
    SomeRun(g, s, l);
    SomeRun(g, s', l');
  }

  /** There is a run to compress exactly when some two neighbours are zero. */
  lemma SomeRun(g: seq<nat>, s: int, l: int)
    requires LeftmostLongest(g, s, l)
    ensures s != -1 <==> exists x :: ZeroRun(g, x, 2)
  {
    if s != -1 {
      assert ZeroRun(g, s, 2);
    }
  }

  ghost predicate Address6(g: seq<nat>) {
    |g| == 8 && forall i :: 0 <= i < 8 ==> g[i] <= 0xffff
  }

  /** Parsing what was printed, with any run of two or more zero groups compressed. */
  lemma PrintedIsRead(g: seq<nat>, start: int, len: int)
    requires Address6(g) && (start == -1 || (len >= 2 && ZeroRun(g, start, len)))
    ensures Parse6(Text6(g, start, len)) == Some(g)
  {
    hide Parse6, Join;
    if start == -1 {
      TokensAreGroups(g);
      FullFormIsRead(Tokens(g));
    } else {
      var a, b := g[..start], g[start + len..];
      TokensAreGroups(a);
      TokensAreGroups(b);
      CompressedFormIsRead(Tokens(a), Tokens(b));
      assert a + Zeros(8 - |a| - |b|) + b == g;
    }
  }

  /** The canonical form of RFC 5952 section 4 tells addresses apart. */
  lemma CanonicalIsInjective(g: seq<nat>, s: int, l: int, g': seq<nat>, s': int, l': int)
    requires Address6(g) && Address6(g') && LeftmostLongest(g, s, l) && LeftmostLongest(g', s', l')
    requires Text6(g, s, l) == Text6(g', s', l')
    ensures g == g'
  {
    hide Text6;
    PrintedIsRead(g, s, l);
    PrintedIsRead(g', s', l');
  }

  /** Printed IPv6 text is never a dotted quad. */
  lemma PrintedIsNotQuad(g: seq<nat>, start: int, len: int)
    requires |g| == 8 && (start == -1 || 0 <= start <= start + len <= 8)
    ensures Scan4(Text6(g, start, len), -1, []) == None
  {
    var t := Text6(g, start, len);
    if start < 0 {
      var ts := Tokens(g);
      OtherCharacterFails(t, -1, [], |ts[0]|);
    } else {
      OtherCharacterFails(t, -1, [], |Join(Tokens(g[..start]))|);
    }
  }

  /** `%02x%02x`: always four digits. */
  function FourDigits(v: nat): (t: seq<byte>)
    requires v <= 0xffff
    ensures |t| == 4
  {
    HexChars([v / 4096, (v / 256) % 16, (v / 16) % 16, v % 16])
  }

  function FullText6(g: seq<nat>): seq<byte>
    requires Address6(g)
  {
    Join(seq(8, i requires 0 <= i < 8 => FourDigits(g[i])))
  }

  lemma FourDigitsIsGroup(v: nat)
    requires v <= 0xffff
    ensures Group(FourDigits(v)) && HexValue(FourDigits(v)) == v
  {
    hide HexChars, Value;
    var ds := [v / 4096, (v / 256) % 16, (v / 16) % 16, v % 16];
    assert FourDigits(v) == HexChars(ds);
    Nibbles(v);
    HexValueOfChars(ds);
    FourValue(ds, v / 4096, (v / 256) % 16, (v / 16) % 16, v % 16);
  }

  lemma Nibbles(v: nat)
    requires v <= 0xffff
    ensures (((v / 4096) * 16 + (v / 256) % 16) * 16 + (v / 16) % 16) * 16 + v % 16 == v
  {}

  lemma FourValue(ds: seq<nat>, a: nat, b: nat, c: nat, d: nat)
    requires ds == [a, b, c, d]
    ensures Value(ds, 16) == ((a * 16 + b) * 16 + c) * 16 + d
  {
    assert ds[..3] == [a, b, c] && [a, b, c][..2] == [a, b] && [a, b][..1] == [a] && [a][..0] == [];
    assert Value([a], 16) == a && Value([a, b], 16) == a * 16 + b;
    assert Value([a, b, c], 16) == (a * 16 + b) * 16 + c;
  }

  /** `toString` text is read back too, and is never a dotted quad. */
  lemma FullTextIsRead(g: seq<nat>)
    requires Address6(g)
    ensures Parse6(FullText6(g)) == Some(g) && Scan4(FullText6(g), -1, []) == None
  {
    var ts := seq(8, i requires 0 <= i < 8 => FourDigits(g[i]));
    forall i | 0 <= i < 8 ensures Group(ts[i]) && HexValue(ts[i]) == g[i] {
      FourDigitsIsGroup(g[i]);
    }
    FullFormIsRead(ts);
    assert Values(ts) == g;
    OtherCharacterFails(FullText6(g), -1, [], |ts[0]|);
  }

  /** The text of an IPv4 address. */
  function Text4(octets: seq<byte>): seq<byte>
    requires |octets| == 4
  {
    Quad(Digits(octets[0], 10), Digits(octets[1], 10), Digits(octets[2], 10), Digits(octets[3], 10))
  }

  /** A printed IPv4 address is read back by the IPv4 scanner. */
  lemma Printed4IsRead(octets: seq<byte>)
    requires |octets| == 4
    ensures Scan4(Text4(octets), -1, []) == Some(octets)
  {
    hide Scan4, Quad;
    forall i | 0 <= i < 4 ensures Octet(Digits(octets[i], 10)) {
      DigitsDenote(octets[i], 10);
    }
    DigitsDenote(octets[0], 10);
    DigitsDenote(octets[1], 10);
    DigitsDenote(octets[2], 10);
    DigitsDenote(octets[3], 10);
    QuadIsRead(Digits(octets[0], 10), Digits(octets[1], 10), Digits(octets[2], 10), Digits(octets[3], 10));
    assert octets == [octets[0], octets[1], octets[2], octets[3]];
  }
}
