/**
 The two state machines of the URL parser, their traces over a text, and the labels they give to its
 characters: which field a character belongs to, or none for a delimiter. Strict mode.
 */
module UrlMachine {
  import opened Common

  datatype Uf = SCHEMA | HOST | PORT | PATH | QUERY | FRAGMENT | USERINFO

  // ----- Character classes

  const COLON: byte := ':' as int
  const SLASH: byte := '/' as int
  const AT: byte := '@' as int
  const QUESTION: byte := '?' as int
  const HASH: byte := '#' as int
  const LBRACKET: byte := '[' as int
  const RBRACKET: byte := ']' as int
  const PERCENT: byte := '%' as int
  const STAR: byte := '*' as int

  predicate IsAlpha(c: byte) { 65 <= c <= 90 || 97 <= c <= 122 }

  predicate IsNum(c: byte) { 48 <= c <= 57 }

  predicate IsAlphaNum(c: byte) { IsAlpha(c) || IsNum(c) }

  predicate IsHex(c: byte) { IsNum(c) || 65 <= c <= 70 || 97 <= c <= 102 }

  // - _ . ! ~ * ' ( )
  predicate IsMark(c: byte) { c == 45 || c == 95 || c == 46 || c == 33 || c == 126 || c == 42 || c == 39 || c == 40 || c == 41 }

  // marks, alphanumerics and % ; : & = + $ ,
  predicate IsUserinfoChar(c: byte) {
    IsAlphaNum(c) || IsMark(c) || c == PERCENT || c == 59 || c == COLON || c == 38 || c == 61 || c == 43 || c == 36 || c == 44
  }

  // letters, digits, '.' and '-'
  predicate IsHostChar(c: byte) { IsAlphaNum(c) || c == 46 || c == 45 }

  // the table of normal URL characters: printable ASCII but '#' and '?'
  predicate IsUrlChar(c: byte) { 33 <= c <= 126 && c != HASH && c != QUESTION }

  predicate IsDelimiter(c: byte) {
    c == COLON || c == SLASH || c == AT || c == QUESTION || c == HASH || c == LBRACKET || c == RBRACKET
  }

  // ----- The classes, against the standards

  predicate OneOf(c: byte, s: string) {
    c as char in s
  }

  predicate IsLetter(c: byte) { OneOf(c, "abcdefghijklmnopqrstuvwxyz") || OneOf(c, "ABCDEFGHIJKLMNOPQRSTUVWXYZ") }

  predicate IsDigit(c: byte) { OneOf(c, "0123456789") }

  /** Unreserved characters and sub-delimiters: sections 2.3 and 2.2 of RFC 3986. */
  predicate IsUnreserved(c: byte) { IsLetter(c) || IsDigit(c) || OneOf(c, "-._~") }

  predicate IsSubDelim(c: byte) { OneOf(c, "!$&'()*+,;=") }

  /**
   Userinfo is that of section 3.2.1 of RFC 3986 and a zone that of section 2 of RFC 6874, with '%' allowed
   anywhere; a host name has letters, digits, points and hyphens only; all the other fields have any
   printable character but '#' and '?'.
   */
  lemma {:induction false} ClassesAreStandard(c: byte)
    ensures IsAlpha(c) <==> IsLetter(c)
    ensures IsNum(c) <==> IsDigit(c)
    ensures IsHex(c) <==> OneOf(c, "0123456789abcdefABCDEF")
    ensures IsHex(c) <==> HexVal(c).Some?
    ensures IsUserinfoChar(c) <==> IsUnreserved(c) || IsSubDelim(c) || OneOf(c, "%:")
    ensures IsZoneChar(c) <==> IsUnreserved(c) || OneOf(c, "%")
    ensures IsHostChar(c) <==> IsUnreserved(c) && !OneOf(c, "_~")
    ensures IsUrlChar(c) <==> IsUnreserved(c) || IsSubDelim(c) || OneOf(c, "%:@/[]\"<>\\^`{|}")
  {
    hide IsAlpha, IsNum, IsHex, IsUrlChar, IsLetter, IsDigit;
    Alphas(c);
    Nums(c);
    Hexes(c);
    HostNameChars(c);
    UrlChars(c);
  }

  lemma Alphas(c: byte)
    ensures IsAlpha(c) <==> IsLetter(c)
  {}

  lemma Nums(c: byte)
    ensures IsNum(c) <==> IsDigit(c)
  {}

  lemma Hexes(c: byte)
    ensures IsHex(c) <==> OneOf(c, "0123456789abcdefABCDEF")
    ensures IsHex(c) <==> HexVal(c).Some?
  {}

  lemma HostNameChars(c: byte)
    ensures IsHostChar(c) <==> IsUnreserved(c) && !OneOf(c, "_~")
  {
    hide IsLetter, IsDigit;
    Alphas(c);
    Nums(c);
  }

  lemma UrlChars(c: byte)
    ensures IsUrlChar(c) <==> IsUnreserved(c) || IsSubDelim(c) || OneOf(c, "%:@/[]\"<>\\^`{|}")
  {
    hide IsLetter, IsDigit;
    Alphas(c);
    Nums(c);
  }

  // ----- Traces

  /** The states after each character of a text. */
  function Trace<S>(step: (S, byte) -> S, s: S, text: seq<byte>): (r: seq<S>)
    ensures |r| == |text|
    decreases |text|
  {
    if text == [] then [] else [step(s, text[0])] + Trace(step, step(s, text[0]), text[1..])
  }

  function After<S>(step: (S, byte) -> S, s: S, text: seq<byte>): S {
    if text == [] then s else Trace(step, s, text)[|text| - 1]
  }

  lemma {:induction false} TraceAt<S>(step: (S, byte) -> S, s: S, text: seq<byte>, i: nat)
    requires i < |text|
    ensures Trace(step, s, text)[i] == step(if i == 0 then s else Trace(step, s, text)[i - 1], text[i])
    decreases |text|
  {
    if i > 0 { TraceAt(step, step(s, text[0]), text[1..], i - 1); }
  }

  lemma {:induction false} TraceAppend<S>(step: (S, byte) -> S, s: S, a: seq<byte>, b: seq<byte>)
    ensures Trace(step, s, a + b) == Trace(step, s, a) + Trace(step, After(step, s, a), b)
    ensures After(step, s, a + b) == After(step, After(step, s, a), b)
    decreases |a|
  {
    if a == [] {
      assert a + b == b;
    } else {
      TraceCons(step, s, a);
      TraceCons(step, s, a + b);
      hide Trace, After;
      var s1, t := step(s, a[0]), a[1..];
      TraceAppend(step, s1, t, b);
      assert (a + b)[1..] == t + b;
      Assoc([s1], Trace(step, s1, t), Trace(step, After(step, s1, t), b));
    }
  }

  lemma TraceCons<S>(step: (S, byte) -> S, s: S, text: seq<byte>)
    requires text != []
    ensures Trace(step, s, text) == [step(s, text[0])] + Trace(step, step(s, text[0]), text[1..])
    ensures After(step, s, text) == After(step, step(s, text[0]), text[1..])
  {}

  /** A text whose every character leads to, and stays in, one state. */
  lemma {:induction false} TraceConstant<S>(step: (S, byte) -> S, s: S, text: seq<byte>, t: S)
    requires text != [] && step(s, text[0]) == t && forall i :: 1 <= i < |text| ==> step(t, text[i]) == t
    ensures After(step, s, text) == t && forall i :: 0 <= i < |text| ==> Trace(step, s, text)[i] == t
    decreases |text|
  {
    if |text| > 1 { TraceConstant(step, t, text[1..], t); }
  }

  // ----- The URL machine

  datatype State =
    | Dead | SpacesBeforeUrl | Schema | SchemaSlash | SchemaSlashSlash | ServerStart | Server
    | ServerWithAt | Path | QueryStart | Query | FragmentStart | Fragment

  /** `parse_url_char` */
  function Step(s: State, ch: byte): State {
    // space, CR, LF, tab, form feed
    if ch == 32 || ch == 13 || ch == 10 || ch == 9 || ch == 12 then Dead
    else match s
      case SpacesBeforeUrl =>
        if ch == SLASH || ch == STAR then Path else if IsAlpha(ch) then Schema else Dead
      case Schema =>
        if IsAlpha(ch) then Schema else if ch == COLON then SchemaSlash else Dead
      case SchemaSlash => if ch == SLASH then SchemaSlashSlash else Dead
      case SchemaSlashSlash => if ch == SLASH then ServerStart else Dead
      case ServerWithAt => if ch == AT then Dead else InServer(ch)
      case ServerStart => InServer(ch)
      case Server => InServer(ch)
      case Path =>
        if IsUrlChar(ch) then Path
        else if ch == QUESTION then QueryStart else if ch == HASH then FragmentStart else Dead
      case QueryStart => InQuery(ch)
      case Query => InQuery(ch)
      case FragmentStart =>
        if IsUrlChar(ch) then Fragment
        else if ch == QUESTION then Fragment else if ch == HASH then FragmentStart else Dead
      case Fragment =>
        if IsUrlChar(ch) || ch == QUESTION || ch == HASH then Fragment else Dead
      case Dead => Dead
  }

  function InServer(ch: byte): State {
    if ch == SLASH then Path
    else if ch == QUESTION then QueryStart
    else if ch == AT then ServerWithAt
    else if IsUserinfoChar(ch) || ch == LBRACKET || ch == RBRACKET then Server
    else Dead
  }

  function InQuery(ch: byte): State {
    if IsUrlChar(ch) then Query
    else if ch == QUESTION then Query else if ch == HASH then FragmentStart else Dead
  }

  /** The field a character belongs to, from the state it leads to. */
  function Label(s: State): Option<Uf> {
    match s
    case Schema => Some(SCHEMA)
    case Server => Some(HOST)
    case ServerWithAt => Some(HOST)
    case Path => Some(PATH)
    case Query => Some(QUERY)
    case Fragment => Some(FRAGMENT)
    case _ => None
  }

  function Rank(s: State): nat {
    match s
    case SpacesBeforeUrl => 0
    case Schema => 1
    case SchemaSlash => 2
    case SchemaSlashSlash => 3
    case ServerStart => 4
    case Server => 5
    case ServerWithAt => 5
    case Path => 6
    case QueryStart => 7
    case Query => 8
    case FragmentStart => 9
    case Fragment => 10
    case Dead => 11
  }

  /** The machine only moves forward, and only a field keeps it in place. */
  lemma RankGrows(s: State, c: byte)
    ensures Rank(s) <= Rank(Step(s, c))
    ensures Rank(s) == Rank(Step(s, c)) && Step(s, c) != FragmentStart && s != Dead ==> Label(Step(s, c)).Some?
    ensures Step(s, c) != Dead && Label(Step(s, c)) == None ==> IsDelimiter(c)
  {}

  lemma {:induction false} RanksSorted(s: State, text: seq<byte>, i: nat, j: nat)
    requires i <= j < |text|
    ensures Rank(Trace(Step, s, text)[i]) <= Rank(Trace(Step, s, text)[j])
  {
    if i < j {
      RanksSorted(s, text, i, j - 1);
      TraceAt(Step, s, text, j);
      RankGrows(Trace(Step, s, text)[j - 1], text[j]);
    }
  }

  // ----- The host machine

  datatype HostState =
    | HDead | UserinfoStart | Userinfo | HostStart | V6Start | Host | V6 | V6End | ZoneStart | Zone
    | PortStart | Port

  /** `http_parse_host_char` */
  function HStep(s: HostState, ch: byte): HostState {
    match s
    case UserinfoStart => InUserinfo(ch)
    case Userinfo => InUserinfo(ch)
    case HostStart => if ch == LBRACKET then V6Start else if IsHostChar(ch) then Host else HDead
    case Host => if IsHostChar(ch) then Host else if ch == COLON then PortStart else HDead
    case V6End => if ch == COLON then PortStart else HDead
    case V6 =>
      if ch == RBRACKET then V6End
      else if IsHex(ch) || ch == COLON || ch == 46 then V6
      else if ch == PERCENT then ZoneStart else HDead
    case V6Start => if IsHex(ch) || ch == COLON || ch == 46 then V6 else HDead
    case Zone => if ch == RBRACKET then V6End else InZone(ch)
    case ZoneStart => InZone(ch)
    case Port => if IsNum(ch) then Port else HDead
    case PortStart => if IsNum(ch) then Port else HDead
    case HDead => HDead
  }

  function InUserinfo(ch: byte): HostState {
    if ch == AT then HostStart else if IsUserinfoChar(ch) then Userinfo else HDead
  }

  predicate IsZoneChar(ch: byte) {
    // unreserved or percent: section 2 of RFC 6874
    IsAlphaNum(ch) || ch == PERCENT || ch == 46 || ch == 45 || ch == 95 || ch == 126
  }

  function InZone(ch: byte): HostState {
    if IsZoneChar(ch) then Zone else HDead
  }

  function HLabel(s: HostState): Option<Uf> {
    match s
    case Userinfo => Some(USERINFO)
    case Host => Some(HOST)
    case V6 => Some(HOST)
    case ZoneStart => Some(HOST)
    case Zone => Some(HOST)
    case Port => Some(PORT)
    case _ => None
  }

  function HRank(s: HostState): nat {
    match s
    case UserinfoStart => 0
    case Userinfo => 1
    case HostStart => 2
    case V6Start => 3
    case Host => 4
    case V6 => 4
    case ZoneStart => 4
    case Zone => 4
    case V6End => 5
    case PortStart => 6
    case Port => 7
    case HDead => 8
  }

  /** The states in which the host text may end. */
  predicate HostMayEnd(s: HostState) {
    s == Host || s == V6End || s == Port
  }

  lemma HRankGrows(s: HostState, c: byte)
    ensures HRank(s) <= HRank(HStep(s, c))
    ensures HStep(s, c) != HDead && HLabel(HStep(s, c)) == None ==> IsDelimiter(c)
    ensures HStep(s, c) == Host && s != Host ==> HLabel(s) == None
    ensures HStep(s, c) == V6 && s != V6 ==> HLabel(s) == None
    ensures HStep(s, c) == ZoneStart || HStep(s, c) == Zone ==> HLabel(s) == Some(HOST)
  {}

  lemma {:induction false} HRanksSorted(s: HostState, text: seq<byte>, i: nat, j: nat)
    requires i <= j < |text|
    ensures HRank(Trace(HStep, s, text)[i]) <= HRank(Trace(HStep, s, text)[j])
  {
    if i < j {
      HRanksSorted(s, text, i, j - 1);
      TraceAt(HStep, s, text, j);
      HRankGrows(Trace(HStep, s, text)[j - 1], text[j]);
    }
  }

  // ----- Spans

  datatype Span = Span(off: nat, len: nat)

  predicate Inside(sp: Span, i: int) {
    sp.off <= i < sp.off + sp.len
  }

  /** The characters labelled f are exactly those of the span. */
  ghost predicate Marks(labels: seq<Option<Uf>>, f: Uf, sp: Span) {
    && sp.len > 0 && sp.off + sp.len <= |labels|
    && forall i :: 0 <= i < |labels| ==> (labels[i] == Some(f) <==> Inside(sp, i))
  }

  /** The set of fields and their spans are those of the labels. */
  ghost predicate Matches(labels: seq<Option<Uf>>, fieldSet: set<Uf>, data: map<Uf, Span>) {
    forall f :: if f in fieldSet then f in data && Marks(labels, f, data[f]) else Some(f) !in labels
  }

  /** Labels determine the fields and their spans. */
  lemma MatchesUnique(labels: seq<Option<Uf>>, fs: set<Uf>, d: map<Uf, Span>, fs': set<Uf>, d': map<Uf, Span>)
    requires Matches(labels, fs, d) && Matches(labels, fs', d')
    ensures fs == fs' && forall f :: f in fs ==> f in d && f in d' && d[f] == d'[f]
  {
    forall f ensures f in fs <==> Some(f) in labels {
      if f in fs { assert labels[d[f].off] == Some(f); }
    }
    forall f ensures f in fs' <==> Some(f) in labels {
      if f in fs' { assert labels[d'[f].off] == Some(f); }
    }
    forall f | f in fs ensures d[f] == d'[f] {
      var a, b := d[f], d'[f];
      assert labels[a.off] == Some(f) && labels[b.off] == Some(f);
      assert labels[a.off + a.len - 1] == Some(f) && labels[b.off + b.len - 1] == Some(f);
    }
  }
}
