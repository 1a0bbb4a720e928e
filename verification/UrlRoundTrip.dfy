/**
 Rendering the components of a URL and parsing the text gives back exactly those components.
 */
module UrlRoundTrip {
  import opened Common
  import opened UrlMachine
  import opened UrlParser
  import opened UrlLayout
  import Number = PrintNumber

  // ----- Components

  datatype HostText = Name(name: seq<byte>) | V6Address(addr: seq<byte>, zone: Option<seq<byte>>)

  datatype Authority = Authority(userinfo: Option<seq<byte>>, host: HostText, port: Option<seq<byte>>)

  datatype Tail = Tail(path: seq<byte>, query: Option<seq<byte>>, fragment: Option<seq<byte>>)

  /** The three forms of text: a full URL, a path, and the argument of CONNECT. */
  datatype Url =
    | Absolute(schema: seq<byte>, auth: Authority, tail: Tail)
    | Relative(tail: Tail)
    | Connect(auth: Authority, tail: Tail)

  ghost predicate LegalHost(h: HostText) {
    match h
    case Name(n) => n != [] && forall i :: 0 <= i < |n| ==> IsHostChar(n[i])
    case V6Address(a, z) =>
      && a != [] && (forall i :: 0 <= i < |a| ==> IsV6Char(a[i]))
      && (z.Some? ==> z.value != [] && forall i :: 0 <= i < |z.value| ==> IsZoneChar(z.value[i]))
  }

  predicate IsV6Char(c: byte) { IsHex(c) || c == COLON || c == 46 }

  /** An authority as the machines accept it, whatever the number of its port. */
  ghost predicate LegalAuthority(a: Authority) {
    && LegalHost(a.host)
    && (a.userinfo.Some? ==> forall i :: 0 <= i < |a.userinfo.value| ==> IsUserinfoChar(a.userinfo.value[i]))
    && (a.port.Some? ==> a.port.value != [] && AllDigits(a.port.value))
  }

  predicate SmallPort(a: Authority)
    requires a.port.Some? ==> AllDigits(a.port.value)
  {
    a.port.Some? ==> PortValue(a.port.value) <= 0xffff
  }

  predicate IsQueryChar(c: byte) { IsUrlChar(c) || c == QUESTION }

  predicate IsFragmentChar(c: byte) { IsUrlChar(c) || c == QUESTION || c == HASH }

  /** Path, query and fragment, each legal by itself; query and fragment may be empty. */
  ghost predicate LegalTailParts(t: Tail) {
    && (forall i :: 0 <= i < |t.path| ==> IsUrlChar(t.path[i]))
    && (t.query.Some? ==> forall i :: 0 <= i < |t.query.value| ==> IsQueryChar(t.query.value[i]))
    && (t.fragment.Some? ==> forall i :: 0 <= i < |t.fragment.value| ==> IsFragmentChar(t.fragment.value[i]))
  }

  /** How many '#' a fragment begins with; they do not count as part of it. */
  function Hashes(f: seq<byte>): (n: nat)
    ensures n <= |f| && (n < |f| ==> f[n] != HASH) && forall i :: 0 <= i < n ==> f[i] == HASH
  {
    if f != [] && f[0] == HASH then 1 + Hashes(f[1..]) else 0
  }

  /** The machine has no way from the host straight to the fragment. */
  ghost predicate LegalTail(t: Tail) {
    LegalTailParts(t) && FragmentFollows(t)
  }

  /** A fragment comes behind a path or a query. */
  predicate FragmentFollows(t: Tail) {
    t.fragment.Some? ==> t.path != [] || t.query.Some?
  }

  ghost predicate LegalSchema(schema: seq<byte>) {
    schema != [] && forall i :: 0 <= i < |schema| ==> IsAlpha(schema[i])
  }

  /** The parts of a full URL, legal one by one. */
  ghost predicate LegalParts(schema: seq<byte>, auth: Authority, tail: Tail) {
    && LegalSchema(schema) && LegalAuthority(auth) && LegalTailParts(tail) && (tail.path != [] ==> tail.path[0] == SLASH)
  }

  /** A URL as the machines accept it. */
  ghost predicate ShapedUrl(u: Url) {
    match u
    case Absolute(schema, auth, tail) => LegalParts(schema, auth, tail) && FragmentFollows(tail)
    case Relative(tail) =>
      LegalTail(tail) && if tail.path == [] then tail == NoTail else tail.path[0] == SLASH || tail.path[0] == STAR
    case Connect(auth, tail) => LegalAuthority(auth) && LegalTail(tail) && (tail.path != [] ==> tail.path[0] == SLASH)
  }

  const NoTail := Tail([], None, None)

  /** The number of the port fits, and the argument of CONNECT has a host, a port and nothing else in it. */
  ghost predicate LegalUrl(u: Url) {
    && ShapedUrl(u)
    && (!u.Relative? ==> SmallPort(u.auth))
    && (u.Connect? ==> forall f :: Component(u, f).Some? <==> f == HOST || f == PORT)
  }

  // ----- Pieces: what is rendered, and the field each part belongs to

  datatype Piece = Piece(text: seq<byte>, field: Option<Uf>)

  function Text(ps: seq<Piece>): seq<byte> {
    if ps == [] then [] else ps[0].text + Text(ps[1..])
  }

  /** n copies of one label. */
  function Copies(n: nat, f: Option<Uf>): (l: Labels)
    ensures |l| == n && forall i :: 0 <= i < n ==> l[i] == f
  {
    seq(n, _ => f)
  }

  function LabelsOf(ps: seq<Piece>): (l: Labels)
    ensures |l| == |Text(ps)|
  {
    if ps == [] then [] else Copies(|ps[0].text|, ps[0].field) + LabelsOf(ps[1..])
  }

  lemma {:induction false} PiecesAppend(a: seq<Piece>, b: seq<Piece>)
    ensures Text(a + b) == Text(a) + Text(b) && LabelsOf(a + b) == LabelsOf(a) + LabelsOf(b)
  {
    hide Text, LabelsOf;
    if a == [] {
      NoPiecesText();
      assert a + b == b;
    } else {
      PiecesAppend(a[1..], b);
      assert (a + b)[1..] == a[1..] + b;
      FirstPiece(a);
      FirstPiece(a + b);
      Assoc(a[0].text, Text(a[1..]), Text(b));
      Assoc(Copies(|a[0].text|, a[0].field), LabelsOf(a[1..]), LabelsOf(b));
    }
  }

  lemma FirstPiece(ps: seq<Piece>)
    requires ps != []
    ensures Text(ps) == ps[0].text + Text(ps[1..])
    ensures LabelsOf(ps) == Copies(|ps[0].text|, ps[0].field) + LabelsOf(ps[1..])
  {}

  function HostPieces(h: HostText): seq<Piece> {
    match h
    case Name(n) => [Piece(n, Some(HOST))]
    case V6Address(a, None) => [Piece([LBRACKET], None), Piece(a, Some(HOST)), Piece([RBRACKET], None)]
    case V6Address(a, Some(z)) =>
      [Piece([LBRACKET], None), Piece(a + [PERCENT] + z, Some(HOST)), Piece([RBRACKET], None)]
  }

  /** A field that is not there when it is empty. */
  function FieldPiece(text: seq<byte>, f: Uf): seq<Piece> {
    if text == [] then [] else [Piece(text, Some(f))]
  }

  function UserinfoPieces(ui: Option<seq<byte>>): seq<Piece> {
    if ui.None? then [] else FieldPiece(ui.value, USERINFO) + [Piece([AT], None)]
  }

  function PortPieces(port: Option<seq<byte>>): seq<Piece> {
    if port.None? then [] else [Piece([COLON], None), Piece(port.value, Some(PORT))]
  }

  function AuthorityPieces(a: Authority): seq<Piece> {
    UserinfoPieces(a.userinfo) + (HostPieces(a.host) + PortPieces(a.port))
  }

  function QueryPieces(q: Option<seq<byte>>): seq<Piece> {
    if q.None? then [] else [Piece([QUESTION], None)] + FieldPiece(q.value, QUERY)
  }

  function FragmentPieces(f: Option<seq<byte>>): seq<Piece> {
    if f.None? then []
    else [Piece([HASH] + f.value[..Hashes(f.value)], None)] + FieldPiece(f.value[Hashes(f.value)..], FRAGMENT)
  }

  function TailPieces(t: Tail): seq<Piece> {
    FieldPiece(t.path, PATH) + (QueryPieces(t.query) + FragmentPieces(t.fragment))
  }

  function SchemaPieces(schema: seq<byte>): seq<Piece> {
    [Piece(schema, Some(SCHEMA)), Piece([COLON, SLASH, SLASH], None)]
  }

  function Pieces(u: Url): seq<Piece> {
    match u
    case Absolute(schema, auth, tail) => SchemaPieces(schema) + (AuthorityPieces(auth) + TailPieces(tail))
    case Relative(tail) => TailPieces(tail)
    case Connect(auth, tail) => AuthorityPieces(auth) + TailPieces(tail)
  }

  /** The URL as text. */
  function Render(u: Url): seq<byte> {
    Text(Pieces(u))
  }

  // ----- Machines running over pieces

  /** From s, the text leads to t; each of its characters gets the label, and none is refused. */
  ghost predicate Leads<S>(step: (S, byte) -> S, lab: S -> Option<Uf>, dead: S, s: S, p: Piece, t: S) {
    && After(step, s, p.text) == t
    && dead !in Trace(step, s, p.text)
    && forall i :: 0 <= i < |p.text| ==> lab(Trace(step, s, p.text)[i]) == p.field
  }

  ghost predicate RunsTo<S>(step: (S, byte) -> S, lab: S -> Option<Uf>, dead: S, s: S, ps: seq<Piece>, t: S) {
    var text := Text(ps);
    && After(step, s, text) == t
    && dead !in Trace(step, s, text)
    && forall i :: 0 <= i < |text| ==> lab(Trace(step, s, text)[i]) == LabelsOf(ps)[i]
  }

  lemma RunsNone<S>(step: (S, byte) -> S, lab: S -> Option<Uf>, dead: S, s: S)
    ensures RunsTo(step, lab, dead, s, [], s)
  {}

  lemma {:induction false} RunsOne<S>(step: (S, byte) -> S, lab: S -> Option<Uf>, dead: S, s: S, p: Piece, t: S)
    requires Leads(step, lab, dead, s, p, t)
    ensures RunsTo(step, lab, dead, s, [p], t)
  {
    assert Text([p]) == p.text + Text([]) == p.text;
    assert LabelsOf([p]) == Copies(|p.text|, p.field) + LabelsOf([]) == Copies(|p.text|, p.field);
  }

  lemma {:induction false} RunsCompose<S>(step: (S, byte) -> S, lab: S -> Option<Uf>, dead: S, s: S, a: seq<Piece>, t: S, b: seq<Piece>, r: S)
    requires RunsTo(step, lab, dead, s, a, t) && RunsTo(step, lab, dead, t, b, r)
    ensures RunsTo(step, lab, dead, s, a + b, r)
  {
    TraceAppend(step, s, Text(a), Text(b));
    PiecesAppend(a, b);
  }

  /** A text that stays in one state. */
  lemma LeadsConstant<S>(step: (S, byte) -> S, lab: S -> Option<Uf>, dead: S, s: S, text: seq<byte>, t: S)
    requires text != [] && t != dead
    requires step(s, text[0]) == t && forall i :: 1 <= i < |text| ==> step(t, text[i]) == t
    ensures RunsTo(step, lab, dead, s, [Piece(text, lab(t))], t)
  {
    TraceConstant(step, s, text, t);
    RunsOne(step, lab, dead, s, Piece(text, lab(t)), t);
  }

  // ----- The host machine on a legal authority

  ghost predicate HRuns(s: HostState, ps: seq<Piece>, t: HostState) {
    RunsTo(HStep, HLabel, HDead, s, ps, t)
  }

  lemma HRunsOn(s: HostState, text: seq<byte>, t: HostState)
    requires text != [] && t != HDead && HStep(s, text[0]) == t && forall i :: 1 <= i < |text| ==> HStep(t, text[i]) == t
    ensures HRuns(s, [Piece(text, HLabel(t))], t)
  {
    LeadsConstant(HStep, HLabel, HDead, s, text, t);
  }

  lemma HCompose(s: HostState, a: seq<Piece>, t: HostState, b: seq<Piece>, r: HostState)
    requires HRuns(s, a, t) && HRuns(t, b, r)
    ensures HRuns(s, a + b, r)
  {
    RunsCompose(HStep, HLabel, HDead, s, a, t, b, r);
  }

  /** Two neighbouring pieces of the same field are one piece. */
  lemma {:induction false} MergePieces(a: seq<byte>, b: seq<byte>, f: Option<Uf>)
    ensures Text([Piece(a, f), Piece(b, f)]) == Text([Piece(a + b, f)])
    ensures LabelsOf([Piece(a, f), Piece(b, f)]) == LabelsOf([Piece(a + b, f)])
  {
    PiecesAppend([Piece(a, f)], [Piece(b, f)]);
    assert [Piece(a, f)] + [Piece(b, f)] == [Piece(a, f), Piece(b, f)];
    assert Text([Piece(a, f)]) == a + Text([]) && Text([Piece(b, f)]) == b + Text([]) && Text([Piece(a + b, f)]) == a + b + Text([]);
    assert LabelsOf([]) == [];
    assert LabelsOf([Piece(a + b, f)]) == Copies(|a + b|, f) + LabelsOf([]);
    assert LabelsOf([Piece(a, f)]) == Copies(|a|, f) + LabelsOf([]);
    assert LabelsOf([Piece(b, f)]) == Copies(|b|, f) + LabelsOf([]);
  }

  lemma HMerge(s: HostState, a: seq<byte>, t: HostState, b: seq<byte>, r: HostState, f: Option<Uf>)
    requires HRuns(s, [Piece(a, f)], t) && HRuns(t, [Piece(b, f)], r)
    ensures HRuns(s, [Piece(a + b, f)], r)
  {
    HCompose(s, [Piece(a, f)], t, [Piece(b, f)], r);
    assert [Piece(a, f)] + [Piece(b, f)] == [Piece(a, f), Piece(b, f)];
    MergePieces(a, b, f);
  }

  /** The single characters of the host machine, with their labels. */
  lemma HostSymbols()
    ensures HRuns(HostStart, [Piece([LBRACKET], None)], V6Start)
    ensures HRuns(V6, [Piece([PERCENT], Some(HOST))], ZoneStart)
    ensures HRuns(V6, [Piece([RBRACKET], None)], V6End) && HRuns(Zone, [Piece([RBRACKET], None)], V6End)
    ensures HRuns(HostState.Host, [Piece([COLON], None)], PortStart) && HRuns(V6End, [Piece([COLON], None)], PortStart)
    ensures HRuns(Userinfo, [Piece([AT], None)], HostStart) && HRuns(UserinfoStart, [Piece([AT], None)], HostStart)
  {
    hide HRuns, HStep, HLabel;
    HStepTable();
    HRunsOn(HostStart, [LBRACKET], V6Start);
    HRunsOn(V6, [PERCENT], ZoneStart);
    HRunsOn(V6, [RBRACKET], V6End);
    HRunsOn(Zone, [RBRACKET], V6End);
    HRunsOn(HostState.Host, [COLON], PortStart);
    HRunsOn(V6End, [COLON], PortStart);
    HRunsOn(Userinfo, [AT], HostStart);
    HRunsOn(UserinfoStart, [AT], HostStart);
  }

  lemma HStepTable()
    ensures HStep(HostStart, LBRACKET) == V6Start && HStep(V6, PERCENT) == ZoneStart
    ensures HStep(V6, RBRACKET) == HStep(Zone, RBRACKET) == V6End
    ensures HStep(HostState.Host, COLON) == HStep(V6End, COLON) == PortStart
    ensures HStep(Userinfo, AT) == HStep(UserinfoStart, AT) == HostStart
    ensures HLabel(V6Start) == HLabel(V6End) == HLabel(PortStart) == HLabel(HostStart) == None
    ensures HLabel(ZoneStart) == Some(HOST)
  {}

  lemma AddressRuns(a: seq<byte>)
    requires a != [] && forall i :: 0 <= i < |a| ==> IsV6Char(a[i])
    ensures HRuns(V6Start, [Piece(a, Some(HOST))], V6)
  {
    hide HRuns;
    HRunsOn(V6Start, a, V6);
  }

  lemma ZoneRuns(z: seq<byte>)
    requires z != [] && forall i :: 0 <= i < |z| ==> IsZoneChar(z[i])
    ensures HRuns(ZoneStart, [Piece(z, Some(HOST))], Zone)
  {
    hide HRuns;
    HRunsOn(ZoneStart, z, Zone);
  }

  /** The text between the brackets. */
  lemma InnerRuns(a: seq<byte>, z: Option<seq<byte>>) returns (inner: seq<byte>, last: HostState)
    requires LegalHost(V6Address(a, z))
    ensures inner == if z.None? then a else a + [PERCENT] + z.value
    ensures last == if z.None? then V6 else Zone
    ensures HRuns(V6Start, [Piece(inner, Some(HOST))], last)
  {
    hide HRuns;
    HostSymbols();
    AddressRuns(a);
    inner, last := a, V6;
    if z.Some? {
      ZoneRuns(z.value);
      HMerge(V6Start, a, V6, [PERCENT], ZoneStart, Some(HOST));
      HMerge(V6Start, a + [PERCENT], ZoneStart, z.value, Zone, Some(HOST));
      inner, last := a + [PERCENT] + z.value, Zone;
    }
  }

  lemma HostRuns(h: HostText)
    requires LegalHost(h)
    ensures HRuns(HostStart, HostPieces(h), if h.Name? then HostState.Host else V6End)
  {
    if h.Name? {
      NameRuns(h.name);
    } else {
      BracketRuns(h.addr, h.zone);
    }
    hide HRuns, LegalHost;
  }

  lemma NameRuns(n: seq<byte>)
    requires n != [] && forall i :: 0 <= i < |n| ==> IsHostChar(n[i])
    ensures HRuns(HostStart, [Piece(n, Some(HOST))], HostState.Host)
  {
    hide HRuns;
    HRunsOn(HostStart, n, HostState.Host);
  }

  lemma BracketRuns(a: seq<byte>, z: Option<seq<byte>>)
    requires LegalHost(V6Address(a, z))
    ensures HRuns(HostStart, HostPieces(V6Address(a, z)), V6End)
  {
    hide HRuns, LegalHost;
    HostSymbols();
    var inner, last := InnerRuns(a, z);
    var open, middle, close := [Piece([LBRACKET], None)], [Piece(inner, Some(HOST))], [Piece([RBRACKET], None)];
    HCompose(V6Start, middle, last, close, V6End);
    HCompose(HostStart, open, V6Start, middle + close, V6End);
    assert HostPieces(V6Address(a, z)) == open + (middle + close);
  }

  lemma PortRuns(s: HostState, port: Option<seq<byte>>) returns (t: HostState)
    requires s == HostState.Host || s == V6End
    requires port.Some? ==> port.value != [] && AllDigits(port.value)
    ensures HRuns(s, PortPieces(port), t) && HostMayEnd(t)
  {
    hide HRuns, AllDigits;
    if port.None? {
      HRunsNone(s);
      t := s;
    } else {
      HostSymbols();
      DigitsRun(port.value);
      HCompose(s, [Piece([COLON], None)], PortStart, [Piece(port.value, Some(PORT))], Port);
      assert PortPieces(port) == [Piece([COLON], None)] + [Piece(port.value, Some(PORT))];
      t := Port;
    }
  }

  lemma DigitsRun(d: seq<byte>)
    requires d != [] && AllDigits(d)
    ensures HRuns(PortStart, [Piece(d, Some(PORT))], Port)
  {
    hide HRuns;
    HRunsOn(PortStart, d, Port);
  }

  /** The host machine accepts a legal authority and labels it as rendered. */
  lemma AuthorityRuns(a: Authority) returns (t: HostState)
    requires LegalAuthority(a)
    ensures HRuns(HostStartState(a.userinfo.Some?), AuthorityPieces(a), t) && HostMayEnd(t)
  {
    hide HRuns, LegalHost, HostPieces, PortPieces, UserinfoPieces, PortValue, AllDigits;
    HostRuns(a.host);
    var s := if a.host.Name? then HostState.Host else V6End;
    t := PortRuns(s, a.port);
    HCompose(HostStart, HostPieces(a.host), s, PortPieces(a.port), t);
    UserinfoRuns(a.userinfo);
    HCompose(HostStartState(a.userinfo.Some?), UserinfoPieces(a.userinfo), HostStart, HostPieces(a.host) + PortPieces(a.port), t);
  }

  lemma UserinfoRuns(ui: Option<seq<byte>>)
    requires ui.Some? ==> forall i :: 0 <= i < |ui.value| ==> IsUserinfoChar(ui.value[i])
    ensures HRuns(HostStartState(ui.Some?), UserinfoPieces(ui), HostStart)
  {
    hide HRuns;
    HostSymbols();
    if ui.None? {
      HRunsNone(HostStart);
    } else if ui.value == [] {
      assert UserinfoPieces(ui) == [Piece([AT], None)];
    } else {
      UserinfoTextRuns(ui.value);
      HCompose(UserinfoStart, [Piece(ui.value, Some(USERINFO))], Userinfo, [Piece([AT], None)], HostStart);
      assert UserinfoPieces(ui) == [Piece(ui.value, Some(USERINFO))] + [Piece([AT], None)];
    }
  }

  lemma UserinfoTextRuns(ui: seq<byte>)
    requires ui != [] && forall i :: 0 <= i < |ui| ==> IsUserinfoChar(ui[i])
    ensures HRuns(UserinfoStart, [Piece(ui, Some(USERINFO))], Userinfo)
  {
    hide HRuns;
    HRunsOn(UserinfoStart, ui, Userinfo);
  }

  lemma HRunsNone(s: HostState)
    ensures HRuns(s, [], s)
  {
    RunsNone(HStep, HLabel, HDead, s);
  }

  // ----- The URL machine on a legal URL

  ghost predicate Runs(s: State, ps: seq<Piece>, t: State) {
    RunsTo(Step, Label, Dead, s, ps, t)
  }

  lemma RunsOn(s: State, text: seq<byte>, t: State)
    requires text != [] && t != Dead && Step(s, text[0]) == t && forall i :: 1 <= i < |text| ==> Step(t, text[i]) == t
    ensures Runs(s, [Piece(text, Label(t))], t)
  {
    LeadsConstant(Step, Label, Dead, s, text, t);
  }

  lemma Compose(s: State, a: seq<Piece>, t: State, b: seq<Piece>, r: State)
    requires Runs(s, a, t) && Runs(t, b, r)
    ensures Runs(s, a + b, r)
  {
    RunsCompose(Step, Label, Dead, s, a, t, b, r);
  }

  /** The single characters of the URL machine, with their labels. */
  lemma UrlSymbols()
    ensures Runs(Schema, [Piece([COLON], None)], SchemaSlash)
    ensures Runs(SchemaSlash, [Piece([SLASH], None)], SchemaSlashSlash)
    ensures Runs(SchemaSlashSlash, [Piece([SLASH], None)], ServerStart)
    ensures Runs(Server, [Piece([AT], Some(HOST))], ServerWithAt) && Runs(ServerStart, [Piece([AT], Some(HOST))], ServerWithAt)
    ensures Runs(Server, [Piece([QUESTION], None)], QueryStart) && Runs(Path, [Piece([QUESTION], None)], QueryStart)
  {
    hide Runs, Step, Label;
    StepTable();
    RunsOn(Schema, [COLON], SchemaSlash);
    RunsOn(SchemaSlash, [SLASH], SchemaSlashSlash);
    RunsOn(SchemaSlashSlash, [SLASH], ServerStart);
    RunsOn(Server, [AT], ServerWithAt);
    RunsOn(ServerStart, [AT], ServerWithAt);
    RunsOn(Server, [QUESTION], QueryStart);
    RunsOn(Path, [QUESTION], QueryStart);
  }

  lemma StepTable()
    ensures Step(Schema, COLON) == SchemaSlash && Step(SchemaSlash, SLASH) == SchemaSlashSlash
    ensures Step(SchemaSlashSlash, SLASH) == ServerStart && Step(Server, AT) == Step(ServerStart, AT) == ServerWithAt
    ensures Step(Server, QUESTION) == Step(Path, QUESTION) == QueryStart
    ensures Step(Path, HASH) == Step(Query, HASH) == Step(QueryStart, HASH) == Step(FragmentStart, HASH) == FragmentStart
    ensures Label(SchemaSlash) == Label(SchemaSlashSlash) == Label(ServerStart) == None
    ensures Label(QueryStart) == Label(FragmentStart) == None && Label(ServerWithAt) == Some(HOST)
  {}

  lemma SchemaRuns(schema: seq<byte>)
    requires LegalSchema(schema)
    ensures Runs(SpacesBeforeUrl, SchemaPieces(schema), ServerStart)
  {
    hide Runs;
    var name, marks := [Piece(schema, Some(SCHEMA))], [Piece([COLON, SLASH, SLASH], None)];
    SchemaNameRuns(schema);
    MarksRun();
    Compose(SpacesBeforeUrl, name, Schema, marks, ServerStart);
    assert SchemaPieces(schema) == name + marks;
  }

  lemma SchemaNameRuns(schema: seq<byte>)
    requires schema != [] && forall i :: 0 <= i < |schema| ==> IsAlpha(schema[i])
    ensures Runs(SpacesBeforeUrl, [Piece(schema, Some(SCHEMA))], Schema)
  {
    hide Runs;
    RunsOn(SpacesBeforeUrl, schema, Schema);
  }

  lemma MarksRun()
    ensures Runs(Schema, [Piece([COLON, SLASH, SLASH], None)], ServerStart)
  {
    hide Runs;
    UrlSymbols();
    Merge(Schema, [COLON], SchemaSlash, [SLASH], SchemaSlashSlash, None);
    assert [COLON] + [SLASH] == [COLON, SLASH] && [COLON, SLASH] + [SLASH] == [COLON, SLASH, SLASH];
    Merge(Schema, [COLON, SLASH], SchemaSlashSlash, [SLASH], ServerStart, None);
  }

  lemma Merge(s: State, a: seq<byte>, t: State, b: seq<byte>, r: State, f: Option<Uf>)
    requires Runs(s, [Piece(a, f)], t) && Runs(t, [Piece(b, f)], r)
    ensures Runs(s, [Piece(a + b, f)], r)
  {
    Compose(s, [Piece(a, f)], t, [Piece(b, f)], r);
    assert [Piece(a, f)] + [Piece(b, f)] == [Piece(a, f), Piece(b, f)];
    MergePieces(a, b, f);
  }

  predicate IsServerChar(c: byte) { IsUserinfoChar(c) || c == LBRACKET || c == RBRACKET }

  /** To the first machine, the whole authority is the host field. */
  lemma ServerRuns(s: State, text: seq<byte>)
    requires s == ServerStart || s == ServerWithAt
    requires text != [] && forall i :: 0 <= i < |text| ==> IsServerChar(text[i])
    ensures Runs(s, [Piece(text, Some(HOST))], Server)
  {
    hide Runs, Step;
    forall i | 0 <= i < |text| ensures Step(s, text[i]) == Server && Step(Server, text[i]) == Server {
      ServerStep(s, text[i]);
    }
    RunsOn(s, text, Server);
  }

  lemma ServerStep(s: State, c: byte)
    requires (s == ServerStart || s == ServerWithAt) && IsServerChar(c)
    ensures Step(s, c) == Server && Step(Server, c) == Server
  {}

  lemma ServerRunsWithUserinfo(ui: seq<byte>, rest: seq<byte>)
    requires forall i :: 0 <= i < |ui| ==> IsServerChar(ui[i])
    requires rest != [] && forall i :: 0 <= i < |rest| ==> IsServerChar(rest[i])
    ensures Runs(ServerStart, [Piece(ui + [AT] + rest, Some(HOST))], Server)
  {
    hide Runs, IsServerChar;
    UrlSymbols();
    ServerRuns(ServerWithAt, rest);
    if ui == [] {
      assert ui + [AT] == [AT];
    } else {
      ServerRuns(ServerStart, ui);
      Merge(ServerStart, ui, Server, [AT], ServerWithAt, Some(HOST));
    }
    Merge(ServerStart, ui + [AT], ServerWithAt, rest, Server, Some(HOST));
  }

  lemma PathRuns(s: State, path: seq<byte>)
    requires path != [] && forall i :: 0 <= i < |path| ==> IsUrlChar(path[i])
    requires (s == Server && path[0] == SLASH) || (s == SpacesBeforeUrl && (path[0] == SLASH || path[0] == STAR))
    ensures Runs(s, FieldPiece(path, PATH), Path)
  {
    hide Runs;
    RunsOn(s, path, Path);
  }

  lemma QueryRuns(s: State, q: Option<seq<byte>>) returns (t: State)
    requires q.Some? ==> s == Server || s == Path
    requires q.Some? ==> forall i :: 0 <= i < |q.value| ==> IsQueryChar(q.value[i])
    ensures Runs(s, QueryPieces(q), t) && t == if q.None? then s else if q.value == [] then QueryStart else Query
  {
    hide Runs;
    if q.None? {
      NoRuns(s);
      t := s;
    } else if q.value == [] {
      UrlSymbols();
      assert QueryPieces(q) == [Piece([QUESTION], None)];
      t := QueryStart;
    } else {
      UrlSymbols();
      QueryTextRuns(q.value);
      Compose(s, [Piece([QUESTION], None)], QueryStart, [Piece(q.value, Some(QUERY))], Query);
      assert QueryPieces(q) == [Piece([QUESTION], None)] + [Piece(q.value, Some(QUERY))];
      t := Query;
    }
  }

  lemma QueryTextRuns(q: seq<byte>)
    requires q != [] && forall i :: 0 <= i < |q| ==> IsQueryChar(q[i])
    ensures Runs(QueryStart, [Piece(q, Some(QUERY))], Query)
  {
    hide Runs;
    forall i | 0 <= i < |q| ensures Step(QueryStart, q[i]) == Query && Step(Query, q[i]) == Query {
      assert IsQueryChar(q[i]);
    }
    RunsOn(QueryStart, q, Query);
  }

  lemma FragmentRuns(s: State, f: Option<seq<byte>>) returns (t: State)
    requires f.Some? ==> s == Path || s == Query || s == QueryStart
    requires f.Some? ==> forall i :: 0 <= i < |f.value| ==> IsFragmentChar(f.value[i])
    ensures Runs(s, FragmentPieces(f), t)
  {
    hide Runs;
    if f.None? {
      NoRuns(s);
      t := s;
    } else {
      var n := Hashes(f.value);
      var marks, body := f.value[..n], f.value[n..];
      HashesRun(s, marks);
      if body == [] {
        NoRuns(FragmentStart);
        t := FragmentStart;
      } else {
        FragmentTextRuns(body);
        t := Fragment;
      }
      Compose(s, [Piece([HASH] + marks, None)], FragmentStart, FieldPiece(body, FRAGMENT), t);
    }
  }

  lemma HashesRun(s: State, marks: seq<byte>)
    requires (s == Path || s == Query || s == QueryStart) && forall i :: 0 <= i < |marks| ==> marks[i] == HASH
    ensures Runs(s, [Piece([HASH] + marks, None)], FragmentStart)
  {
    hide Runs, Step, Label;
    StepTable();
    RunsOn(s, [HASH] + marks, FragmentStart);
  }

  lemma FragmentTextRuns(f: seq<byte>)
    requires f != [] && f[0] != HASH && forall i :: 0 <= i < |f| ==> IsFragmentChar(f[i])
    ensures Runs(FragmentStart, [Piece(f, Some(FRAGMENT))], Fragment)
  {
    hide Runs;
    forall i | 0 <= i < |f| ensures Step(Fragment, f[i]) == Fragment {
      assert IsFragmentChar(f[i]);
    }
    assert IsFragmentChar(f[0]);
    RunsOn(FragmentStart, f, Fragment);
  }

  lemma TailRuns(s: State, t: Tail) returns (r: State)
    requires LegalTail(t)
    requires (s == Server && (t.path != [] ==> t.path[0] == SLASH)) || t == NoTail ||
             (s == SpacesBeforeUrl && t.path != [] && (t.path[0] == SLASH || t.path[0] == STAR))
    ensures Runs(s, TailPieces(t), r)
  {
    hide Runs;
    var s1 := s;
    if t.path != [] {
      PathRuns(s, t.path);
      s1 := Path;
    } else {
      NoRuns(s);
    }
    var s2 := QueryRuns(s1, t.query);
    r := FragmentRuns(s2, t.fragment);
    Compose(s1, QueryPieces(t.query), s2, FragmentPieces(t.fragment), r);
    Compose(s, FieldPiece(t.path, PATH), s1, QueryPieces(t.query) + FragmentPieces(t.fragment), r);
  }

  lemma NoRuns(s: State)
    ensures Runs(s, [], s)
  {
    RunsNone(Step, Label, Dead, s);
  }

  /** All characters of the pieces satisfy the host field's alphabet. */
  ghost predicate ServerPieces(ps: seq<Piece>) {
    forall k :: 0 <= k < |ps| ==> ServerText(ps[k].text)
  }

  ghost predicate ServerText(t: seq<byte>) {
    forall i :: 0 <= i < |t| ==> IsServerChar(t[i])
  }

  lemma {:induction false} ServerPiecesText(ps: seq<Piece>)
    requires ServerPieces(ps)
    ensures ServerText(Text(ps))
  {
    if ps != [] {
      assert ServerText(ps[0].text);
      forall k | 0 <= k < |ps[1..]| ensures ServerText(ps[1..][k].text) {
        assert ps[1..][k] == ps[k + 1];
      }
      ServerPiecesText(ps[1..]);
    }
  }

  lemma {:induction false} HostAndPortText(a: Authority)
    requires LegalAuthority(a)
    ensures ServerText(Text(HostPieces(a.host) + PortPieces(a.port)))
    ensures Text(HostPieces(a.host) + PortPieces(a.port)) != []
  {
    var ps := HostPieces(a.host) + PortPieces(a.port);
    if a.host.Name? {
      var n := a.host.name;
      forall i | 0 <= i < |n| ensures IsServerChar(n[i]) { assert IsHostChar(n[i]); }
      assert ServerText(n);
    } else {
      V6Text(a.host.addr, a.host.zone);
    }
    if a.port.Some? {
      forall i | 0 <= i < |a.port.value| ensures IsServerChar(a.port.value[i]) { assert IsNum(a.port.value[i]); }
      assert ServerText(a.port.value);
    }
    assert ServerText([LBRACKET]) && ServerText([RBRACKET]) && ServerText([COLON]);
    ServerPiecesText(ps);
    assert Text(ps) == ps[0].text + Text(ps[1..]);
  }

  lemma V6Text(addr: seq<byte>, zone: Option<seq<byte>>)
    requires LegalHost(V6Address(addr, zone))
    ensures ServerText(addr) && (zone.Some? ==> ServerText(addr + [PERCENT] + zone.value))
  {
    forall i | 0 <= i < |addr| ensures IsServerChar(addr[i]) { assert IsV6Char(addr[i]); }
    if zone.Some? {
      var z := zone.value;
      forall i | 0 <= i < |z| ensures IsServerChar(z[i]) { assert IsZoneChar(z[i]); }
    }
  }

  /** The first machine sees the authority as one host field. */
  lemma {:induction false} AuthorityIsHost(a: Authority)
    requires LegalAuthority(a)
    ensures Runs(ServerStart, [Piece(Text(AuthorityPieces(a)), Some(HOST))], Server)
    ensures Text(AuthorityPieces(a)) != []
    ensures AT in Text(AuthorityPieces(a)) <==> a.userinfo.Some?
  {
    hide Runs, HostPieces, PortPieces, LegalHost;
    var hp := HostPieces(a.host) + PortPieces(a.port);
    var rest := Text(hp);
    HostAndPortText(a);
    PiecesAppend(UserinfoPieces(a.userinfo), hp);
    if a.userinfo.Some? {
      var ui := a.userinfo.value;
      forall i | 0 <= i < |ui| ensures IsServerChar(ui[i]) { assert IsUserinfoChar(ui[i]); }
      UserinfoText(ui);
      assert Text(AuthorityPieces(a)) == ui + [AT] + rest;
      assert Text(AuthorityPieces(a))[|ui|] == AT;
      ServerRunsWithUserinfo(ui, rest);
    } else {
      assert Text(AuthorityPieces(a)) == rest by {
        assert AuthorityPieces(a) == hp;
      }
      assert !IsServerChar(AT);
      ServerRuns(ServerStart, rest);
    }
  }

  lemma {:induction false} UserinfoText(ui: seq<byte>)
    ensures Text(UserinfoPieces(Some(ui))) == ui + [AT]
  {
    hide Text;
    if ui == [] {
      assert UserinfoPieces(Some(ui)) == [Piece([AT], None)];
      OnePieceText([AT], None);
    } else {
      TwoPiecesText(ui, Some(USERINFO), [AT], None);
      assert UserinfoPieces(Some(ui)) == [Piece(ui, Some(USERINFO)), Piece([AT], None)];
    }
  }

  lemma {:induction false} TwoPiecesText(s: seq<byte>, f: Option<Uf>, t: seq<byte>, g: Option<Uf>)
    ensures Text([Piece(s, f), Piece(t, g)]) == s + t
  {
    PiecesAppend([Piece(s, f)], [Piece(t, g)]);
    assert [Piece(s, f)] + [Piece(t, g)] == [Piece(s, f), Piece(t, g)];
    OnePieceText(s, f);
    OnePieceText(t, g);
  }

  // ----- The labels of the whole text

  function OuterPieces(u: Url): seq<Piece> {
    match u
    case Absolute(schema, auth, tail) =>
      SchemaPieces(schema) + ([Piece(Text(AuthorityPieces(auth)), Some(HOST))] + TailPieces(tail))
    case Relative(tail) => TailPieces(tail)
    case Connect(auth, tail) => [Piece(Text(AuthorityPieces(auth)), Some(HOST))] + TailPieces(tail)
  }

  lemma {:induction false} OnePieceText(t: seq<byte>, f: Option<Uf>)
    ensures Text([Piece(t, f)]) == t && LabelsOf([Piece(t, f)]) == Copies(|t|, f)
  {
    assert Text([Piece(t, f)]) == t + Text([]);
    assert LabelsOf([Piece(t, f)]) == Copies(|t|, f) + LabelsOf([]);
  }

  lemma {:induction false} OuterText(u: Url)
    ensures Text(OuterPieces(u)) == Render(u)
  {
    match u
    case Absolute(schema, auth, tail) =>
      var h := [Piece(Text(AuthorityPieces(auth)), Some(HOST))];
      OnePieceText(Text(AuthorityPieces(auth)), Some(HOST));
      PiecesAppend(SchemaPieces(schema), h + TailPieces(tail));
      PiecesAppend(h, TailPieces(tail));
      PiecesAppend(SchemaPieces(schema), AuthorityPieces(auth) + TailPieces(tail));
      PiecesAppend(AuthorityPieces(auth), TailPieces(tail));
    case Relative(tail) =>
    case Connect(auth, tail) =>
      OnePieceText(Text(AuthorityPieces(auth)), Some(HOST));
      PiecesAppend([Piece(Text(AuthorityPieces(auth)), Some(HOST))], TailPieces(tail));
      PiecesAppend(AuthorityPieces(auth), TailPieces(tail));
  }

  /** The first pass labels a rendered URL as its outer pieces. */
  lemma {:induction false} OuterLabels(u: Url)
    requires ShapedUrl(u)
    ensures Outer(Render(u), u.Connect?) == LabelsOf(OuterPieces(u))
    ensures Dead !in Trace(Step, StartState(u.Connect?), Render(u))
  {
    hide Text, LabelsOf, Trace, Outer, Runs, SchemaPieces, AuthorityPieces, TailPieces, Render, LegalAuthority;
    OuterText(u);
    var t := OuterRuns(u);
    LabelsOfRun(StartState(u.Connect?), OuterPieces(u), t, u.Connect?);
  }

  /** The first machine on the outer pieces. */
  lemma {:induction false} OuterRuns(u: Url) returns (t: State)
    requires ShapedUrl(u)
    ensures Runs(StartState(u.Connect?), OuterPieces(u), t)
  {
    hide Text, LabelsOf, Runs, SchemaPieces, AuthorityPieces, TailPieces, LegalAuthority;
    match u
    case Absolute(schema, auth, tail) =>
      var h := [Piece(Text(AuthorityPieces(auth)), Some(HOST))];
      SchemaRuns(schema);
      AuthorityIsHost(auth);
      t := TailRuns(Server, tail);
      Compose(ServerStart, h, Server, TailPieces(tail), t);
      Compose(SpacesBeforeUrl, SchemaPieces(schema), ServerStart, h + TailPieces(tail), t);
    case Relative(tail) =>
      t := TailRuns(SpacesBeforeUrl, tail);
    case Connect(auth, tail) =>
      AuthorityIsHost(auth);
      t := TailRuns(Server, tail);
      Compose(ServerStart, [Piece(Text(AuthorityPieces(auth)), Some(HOST))], Server, TailPieces(tail), t);
  }

  lemma {:induction false} LabelsOfRun(s: State, ps: seq<Piece>, t: State, isConnect: bool)
    requires Runs(s, ps, t) && s == StartState(isConnect)
    ensures Outer(Text(ps), isConnect) == LabelsOf(ps) && Dead !in Trace(Step, s, Text(ps))
  {
    hide Text, LabelsOf, Trace, Step;
  }

  /** The labels occurring in pieces are those of the pieces. */
  lemma {:induction false} LabelsFrom(ps: seq<Piece>, l: Option<Uf>)
    requires forall k :: 0 <= k < |ps| ==> ps[k].field != l
    ensures l !in LabelsOf(ps)
  {
    if ps != [] {
      forall k | 0 <= k < |ps[1..]| ensures ps[1..][k].field != l {
        assert ps[1..][k] == ps[k + 1];
      }
      LabelsFrom(ps[1..], l);
      assert ps[0].field != l;
    }
  }

  /** In pieces a + [p] + b, the field of p is exactly the text of p, if a and b do not mention it. */
  lemma {:induction false} MiddleMarks(a: seq<Piece>, p: Piece, b: seq<Piece>, f: Uf)
    requires p.field == Some(f) && p.text != []
    requires forall k :: 0 <= k < |a| ==> a[k].field != Some(f)
    requires forall k :: 0 <= k < |b| ==> b[k].field != Some(f)
    ensures var ps, sp := a + ([p] + b), Span(|Text(a)|, |p.text|);
      Marks(LabelsOf(ps), f, sp) && Slice(Text(ps), sp) == p.text
    ensures LabelsOf(a + ([p] + b)) == LabelsOf(a) + Copies(|p.text|, Some(f)) + LabelsOf(b)
    ensures Text(a + ([p] + b)) == Text(a) + p.text + Text(b)
  {
    hide Text, LabelsOf;
    PiecesAppend(a, [p] + b);
    PiecesAppend([p], b);
    OnePieceText(p.text, p.field);
    assert [Piece(p.text, p.field)] == [p];
    LabelsFrom(a, Some(f));
    LabelsFrom(b, Some(f));
    var x, y := Text(a), Text(b);
    Assoc(x, p.text, y);
    Assoc(LabelsOf(a), Copies(|p.text|, Some(f)), LabelsOf(b));
    MarksInside(LabelsOf(a), |p.text|, LabelsOf(b), f);
    assert (x + p.text + y)[|x|..|x| + |p.text|] == p.text;
  }

  lemma MarksInside(a: Labels, n: nat, b: Labels, f: Uf)
    requires n > 0 && Some(f) !in a && Some(f) !in b
    ensures Marks(a + Copies(n, Some(f)) + b, f, Span(|a|, n))
  {
    hide Copies;
    var l := a + Copies(n, Some(f)) + b;
    forall i | 0 <= i < |l| ensures l[i] == Some(f) <==> |a| <= i < |a| + n {
      if i < |a| { assert l[i] == a[i]; }
      else if i >= |a| + n { assert l[i] == b[i - |a| - n]; }
    }
  }

  /** `found_at` means an at-sign in the host field of the first pass. */
  lemma {:induction false} FoundAtIsAt(buf: seq<byte>, isConnect: bool)
    ensures FoundAt(buf, isConnect) <==> exists i :: 0 <= i < |buf| && Outer(buf, isConnect)[i] == Some(HOST) && buf[i] == AT
  {
    hide Trace, Step, Label;
    var tr := Trace(Step, StartState(isConnect), buf);
    forall i | 0 <= i < |buf|
      ensures tr[i] == ServerWithAt <==> Outer(buf, isConnect)[i] == Some(HOST) && buf[i] == AT
    {
      TraceAt(Step, StartState(isConnect), buf, i);
      AtStep(if i == 0 then StartState(isConnect) else tr[i - 1], buf[i]);
    }
  }

  lemma AtStep(s: State, c: byte)
    ensures Step(s, c) == ServerWithAt <==> Label(Step(s, c)) == Some(HOST) && c == AT
  {}

  /** With the host field in place, the final labels are those of the rendered pieces. */
  lemma {:induction false} OverlayPieces(buf: seq<byte>, isConnect: bool, auth: Authority, a: seq<Piece>, b: seq<Piece>)
    requires LegalAuthority(auth)
    requires buf == Text(a) + Text(AuthorityPieces(auth)) + Text(b)
    requires Outer(buf, isConnect) == LabelsOf(a + ([Piece(Text(AuthorityPieces(auth)), Some(HOST))] + b))
    requires Dead !in Trace(Step, StartState(isConnect), buf)
    requires forall k :: 0 <= k < |a| ==> a[k].field != Some(HOST)
    requires forall k :: 0 <= k < |b| ==> b[k].field != Some(HOST)
    ensures var hs := Span(|Text(a)|, |Text(AuthorityPieces(auth))|);
      BothPasses(buf, isConnect, hs) && Final(buf, isConnect, hs) == LabelsOf(a + (AuthorityPieces(auth) + b))
  {
    hide Outer, AuthorityPieces, LegalAuthority, LabelsOf, Text, HostLabels, HostAccepted, FoundAt, Trace;
    var ap := AuthorityPieces(auth);
    var text := Text(ap);
    var p := Piece(text, Some(HOST));
    var hs := Span(|Text(a)|, |text|);
    AuthorityIsHost(auth);
    MiddleMarks(a, p, b, HOST);
    MarksHead(Outer(buf, isConnect), HOST, hs);
    FoundAtIsAt(buf, isConnect);
    assert Slice(buf, hs) == text;
    AtInHost(buf, Outer(buf, isConnect), hs);
    var t := AuthorityRuns(auth);
    HostLabelsOfPieces(auth, t);
    PiecesAppend(a, ap + b);
    PiecesAppend(ap, b);
    assert Overlay(Outer(buf, isConnect), LabelsOf(ap), hs.off, |buf|) == LabelsOf(a) + (LabelsOf(ap) + LabelsOf(b));
  }

  lemma {:induction false} AtInHost(buf: seq<byte>, outer: Labels, hs: Span)
    requires |outer| == |buf| && Marks(outer, HOST, hs)
    ensures AT in Slice(buf, hs) <==> exists i :: 0 <= i < |buf| && outer[i] == Some(HOST) && buf[i] == AT
  {
    if AT in Slice(buf, hs) {
      var k :| 0 <= k < hs.len && Slice(buf, hs)[k] == AT;
      assert Inside(hs, hs.off + k) && outer[hs.off + k] == Some(HOST);
    }
    if i :| 0 <= i < |buf| && outer[i] == Some(HOST) && buf[i] == AT {
      assert Inside(hs, i) && Slice(buf, hs)[i - hs.off] == AT;
    }
  }

  lemma {:induction false} HostLabelsOfPieces(a: Authority, t: HostState)
    requires HRuns(HostStartState(a.userinfo.Some?), AuthorityPieces(a), t) && HostMayEnd(t)
    ensures var text := Text(AuthorityPieces(a));
      HostAccepted(text, a.userinfo.Some?) && HostLabels(text, a.userinfo.Some?) == LabelsOf(AuthorityPieces(a))
  {}

  // ----- The round trip

  function HostComponent(h: HostText): seq<byte> {
    match h
    case Name(n) => n
    case V6Address(a, None) => a
    case V6Address(a, Some(z)) => a + [PERCENT] + z
  }

  function AuthorityComponent(a: Authority, f: Uf): Option<seq<byte>> {
    match f
    case USERINFO => NonEmpty(a.userinfo)
    case HOST => Some(HostComponent(a.host))
    case PORT => a.port
    case _ => None
  }

  function TailComponent(t: Tail, f: Uf): Option<seq<byte>> {
    match f
    case PATH => if t.path == [] then None else Some(t.path)
    case QUERY => NonEmpty(t.query)
    case FRAGMENT => if t.fragment.None? then None else NonEmpty(Some(t.fragment.value[Hashes(t.fragment.value)..]))
    case _ => None
  }

  function NonEmpty(text: Option<seq<byte>>): Option<seq<byte>> {
    if text == Some([]) then None else text
  }

  /** What the parser should report for each field. */
  function Component(u: Url, f: Uf): Option<seq<byte>> {
    match u
    case Absolute(schema, auth, tail) =>
      if f == SCHEMA then Some(schema)
      else if AuthorityComponent(auth, f).Some? then AuthorityComponent(auth, f) else TailComponent(tail, f)
    case Relative(tail) => TailComponent(tail, f)
    case Connect(auth, tail) =>
      if AuthorityComponent(auth, f).Some? then AuthorityComponent(auth, f) else TailComponent(tail, f)
  }

  /**
   The pieces carry exactly the components with order in lo..hi: each once, in URL order, none empty.
   */
  ghost predicate Carries(ps: seq<Piece>, lo: nat, hi: nat, c: Uf -> Option<seq<byte>>) {
    && (forall k :: 0 <= k < |ps| && ps[k].field.Some? ==>
         var f := ps[k].field.value;
         lo <= Order(f) < hi && ps[k].text != [] && c(f) == Some(ps[k].text))
    && (forall j, k :: 0 <= j < k < |ps| && ps[j].field.Some? && ps[k].field.Some? ==>
         Order(ps[j].field.value) < Order(ps[k].field.value))
    && (forall f :: lo <= Order(f) < hi && c(f).Some? ==> Mentions(ps, f))
  }

  ghost predicate Mentions(ps: seq<Piece>, f: Uf) {
    exists k :: 0 <= k < |ps| && ps[k].field == Some(f)
  }

  lemma {:induction false} CarriesAppend(a: seq<Piece>, b: seq<Piece>, lo: nat, mid: nat, hi: nat, c: Uf -> Option<seq<byte>>)
    requires lo <= mid <= hi && Carries(a, lo, mid, c) && Carries(b, mid, hi, c)
    ensures Carries(a + b, lo, hi, c)
  {
    forall f | lo <= Order(f) < hi && c(f).Some? ensures Mentions(a + b, f) {
      if Order(f) < mid {
        var k :| 0 <= k < |a| && a[k].field == Some(f);
        assert (a + b)[k].field == Some(f);
      } else {
        var k :| 0 <= k < |b| && b[k].field == Some(f);
        assert (a + b)[|a| + k].field == Some(f);
      }
    }
  }

  lemma {:induction false} AuthorityCarries(a: Authority, c: Uf -> Option<seq<byte>>)
    requires LegalAuthority(a)
    requires forall f :: 1 <= Order(f) < 4 ==> c(f) == AuthorityComponent(a, f)
    ensures Carries(AuthorityPieces(a), 1, 4, c)
  {
    hide Carries, UserinfoPieces, HostPieces, PortPieces, LegalHost;
    UserinfoCarries(a.userinfo, c);
    HostCarries(a.host, c);
    PortCarries(a.port, c);
    CarriesAppend(HostPieces(a.host), PortPieces(a.port), 2, 3, 4, c);
    CarriesAppend(UserinfoPieces(a.userinfo), HostPieces(a.host) + PortPieces(a.port), 1, 2, 4, c);
  }

  /** A field piece carries its field; a delimiter carries nothing. */
  lemma FieldCarries(text: seq<byte>, f: Uf, c: Uf -> Option<seq<byte>>)
    requires c(f) == NonEmpty(Some(text))
    ensures Carries(FieldPiece(text, f), Order(f), Order(f) + 1, c)
  {
    SameOrder(f);
    if text != [] { assert FieldPiece(text, f)[0].field == Some(f); }
  }

  lemma SameOrder(f: Uf)
    ensures forall g :: Order(g) == Order(f) ==> g == f
  {}

  lemma MarkCarries(text: seq<byte>, k: nat, c: Uf -> Option<seq<byte>>)
    ensures Carries([Piece(text, None)], k, k, c)
  {}

  lemma UserinfoCarries(ui: Option<seq<byte>>, c: Uf -> Option<seq<byte>>)
    requires c(USERINFO) == NonEmpty(ui)
    ensures Carries(UserinfoPieces(ui), 1, 2, c)
  {
    hide Carries, FieldPiece;
    if ui.None? {
      CarriesNone(USERINFO, c);
    } else {
      FieldCarries(ui.value, USERINFO, c);
      MarkCarries([AT], 2, c);
      CarriesAppend(FieldPiece(ui.value, USERINFO), [Piece([AT], None)], 1, 2, 2, c);
    }
  }

  lemma CarriesNone(f: Uf, c: Uf -> Option<seq<byte>>)
    requires c(f) == None
    ensures Carries([], Order(f), Order(f) + 1, c)
  {
    SameOrder(f);
  }

  lemma PortCarries(port: Option<seq<byte>>, c: Uf -> Option<seq<byte>>)
    requires (port.Some? ==> port.value != []) && c(PORT) == port
    ensures Carries(PortPieces(port), 3, 4, c)
  {
    if port.Some? { assert PortPieces(port)[1].field == Some(PORT); }
  }

  lemma HostCarries(h: HostText, c: Uf -> Option<seq<byte>>)
    requires LegalHost(h) && c(HOST) == Some(HostComponent(h))
    ensures Carries(HostPieces(h), 2, 3, c)
  {
    if h.Name? {
      assert HostPieces(h)[0].field == Some(HOST);
    } else {
      assert HostPieces(h)[1].field == Some(HOST);
    }
  }

  lemma {:induction false} TailCarries(t: Tail, c: Uf -> Option<seq<byte>>)
    requires LegalTail(t)
    requires forall f :: 4 <= Order(f) < 7 ==> c(f) == TailComponent(t, f)
    ensures Carries(TailPieces(t), 4, 7, c)
  {
    hide Carries, FieldPiece, QueryPieces, FragmentPieces;
    FieldCarries(t.path, PATH, c);
    QueryCarries(t.query, c);
    FragmentCarries(t.fragment, c);
    CarriesAppend(QueryPieces(t.query), FragmentPieces(t.fragment), 5, 6, 7, c);
    CarriesAppend(FieldPiece(t.path, PATH), QueryPieces(t.query) + FragmentPieces(t.fragment), 4, 5, 7, c);
  }

  lemma QueryCarries(q: Option<seq<byte>>, c: Uf -> Option<seq<byte>>)
    requires c(QUERY) == NonEmpty(q)
    ensures Carries(QueryPieces(q), 5, 6, c)
  {
    hide Carries, FieldPiece;
    if q.None? {
      CarriesNone(QUERY, c);
    } else {
      MarkCarries([QUESTION], 5, c);
      FieldCarries(q.value, QUERY, c);
      CarriesAppend([Piece([QUESTION], None)], FieldPiece(q.value, QUERY), 5, 5, 6, c);
    }
  }

  lemma FragmentCarries(f: Option<seq<byte>>, c: Uf -> Option<seq<byte>>)
    requires c(FRAGMENT) == if f.None? then None else NonEmpty(Some(f.value[Hashes(f.value)..]))
    ensures Carries(FragmentPieces(f), 6, 7, c)
  {
    hide Carries, FieldPiece, Hashes;
    if f.None? {
      CarriesNone(FRAGMENT, c);
    } else {
      var n := Hashes(f.value);
      MarkCarries([HASH] + f.value[..n], 6, c);
      FieldCarries(f.value[n..], FRAGMENT, c);
      CarriesAppend([Piece([HASH] + f.value[..n], None)], FieldPiece(f.value[n..], FRAGMENT), 6, 6, 7, c);
    }
  }

  lemma CarriesNothing(lo: nat, hi: nat, c: Uf -> Option<seq<byte>>)
    requires forall f :: lo <= Order(f) < hi ==> c(f) == None
    ensures Carries([], lo, hi, c)
  {}

  lemma SchemaCarries(schema: seq<byte>, c: Uf -> Option<seq<byte>>)
    requires schema != [] && c(SCHEMA) == Some(schema)
    ensures Carries(SchemaPieces(schema), 0, 1, c)
  {
    assert SchemaPieces(schema)[0].field == Some(SCHEMA);
  }

  lemma {:induction false} UrlCarries(u: Url)
    requires ShapedUrl(u)
    ensures Carries(Pieces(u), 0, 7, f => Component(u, f))
  {
    hide Carries, SchemaPieces, AuthorityPieces, TailPieces;
    var c := f => Component(u, f);
    match u
    case Absolute(schema, auth, tail) =>
      SchemaCarries(schema, c);
      AuthorityCarries(auth, c);
      TailCarries(tail, c);
      CarriesAppend(AuthorityPieces(auth), TailPieces(tail), 1, 4, 7, c);
      CarriesAppend(SchemaPieces(schema), AuthorityPieces(auth) + TailPieces(tail), 0, 1, 7, c);
    case Relative(tail) =>
      TailCarries(tail, c);
      CarriesNothing(0, 4, c);
      CarriesAppend([], TailPieces(tail), 0, 4, 7, c);
      assert [] + TailPieces(tail) == TailPieces(tail);
    case Connect(auth, tail) =>
      AuthorityCarries(auth, c);
      TailCarries(tail, c);
      CarriesNothing(0, 1, c);
      CarriesAppend(AuthorityPieces(auth), TailPieces(tail), 1, 4, 7, c);
      CarriesAppend([], AuthorityPieces(auth) + TailPieces(tail), 0, 1, 7, c);
      assert [] + (AuthorityPieces(auth) + TailPieces(tail)) == AuthorityPieces(auth) + TailPieces(tail);
  }

  lemma {:induction false} SplitAround(ps: seq<Piece>, c: Uf -> Option<seq<byte>>, k: nat, f: Uf, a: seq<Piece>, b: seq<Piece>)
    requires Carries(ps, 0, 7, c) && k < |ps| && ps[k].field == Some(f)
    requires a == ps[..k] && b == ps[k + 1..]
    ensures ps == a + ([ps[k]] + b)
    ensures forall j :: 0 <= j < |a| ==> a[j].field != Some(f)
    ensures forall j :: 0 <= j < |b| ==> b[j].field != Some(f)
    ensures ps[k].text != [] && c(f) == Some(ps[k].text)
  {
    forall j | 0 <= j < |b| ensures b[j].field != Some(f) {
      assert b[j] == ps[k + 1 + j];
    }
  }

  /** A carried component is marked where it was rendered; a field that is not carried has no label. */
  lemma {:induction false} CarriedIsMarked(ps: seq<Piece>, c: Uf -> Option<seq<byte>>, f: Uf) returns (sp: Span)
    requires Carries(ps, 0, 7, c)
    ensures c(f).Some? ==> Marks(LabelsOf(ps), f, sp) && Slice(Text(ps), sp) == c(f).value
    ensures c(f) == None ==> Some(f) !in LabelsOf(ps)
  {
    hide Carries, Text, LabelsOf, Marks;
    sp := Span(0, 0);
    if c(f).Some? {
      var k := Carrier(ps, c, f);
      SplitAround(ps, c, k, f, ps[..k], ps[k + 1..]);
      MiddleMarks(ps[..k], ps[k], ps[k + 1..], f);
      sp := Span(|Text(ps[..k])|, |ps[k].text|);
    } else {
      NotCarried(ps, c, f);
      LabelsFrom(ps, Some(f));
    }
  }

  lemma Carrier(ps: seq<Piece>, c: Uf -> Option<seq<byte>>, f: Uf) returns (k: nat)
    requires Carries(ps, 0, 7, c) && c(f).Some?
    ensures k < |ps| && ps[k].field == Some(f)
  {
    assert Order(f) < 7;
    assert Mentions(ps, f);
    k :| 0 <= k < |ps| && ps[k].field == Some(f);
  }

  lemma NotCarried(ps: seq<Piece>, c: Uf -> Option<seq<byte>>, f: Uf)
    requires Carries(ps, 0, 7, c) && c(f) == None
    ensures forall k :: 0 <= k < |ps| ==> ps[k].field != Some(f)
  {}

  /** The labels of a rendered URL are those of its pieces. */
  ghost predicate LabelledAs(u: Url, hs: Span) {
    BothPasses(Render(u), u.Connect?, hs) && Final(Render(u), u.Connect?, hs) == LabelsOf(Pieces(u))
  }

  lemma LabelledBounds(u: Url, hs: Span)
    requires LabelledAs(u, hs)
    ensures hs.off + hs.len <= |Render(u)|
  {}

  lemma {:induction false} AbsoluteIsLabelled(u: Url) returns (hs: Span)
    requires ShapedUrl(u) && u.Absolute?
    ensures LabelledAs(u, hs)
  {
    hide Outer, Text, LabelsOf, Trace, Final, SchemaPieces, TailPieces, AuthorityPieces, BothPasses, Render, Pieces,
      OuterPieces, LegalAuthority, LegalTailParts, FragmentFollows;
    OuterLabels(u);
    AbsoluteText(u);
    SchemaFields(u.schema);
    TailFields(u.tail);
    var a, h, t := SchemaPieces(u.schema), AuthorityPieces(u.auth), TailPieces(u.tail);
    OverlayPieces(Render(u), false, u.auth, a, t);
    hs := Span(|Text(a)|, |Text(h)|);
  }

  lemma {:induction false} AbsoluteText(u: Url)
    requires u.Absolute?
    ensures var a, h, t := SchemaPieces(u.schema), AuthorityPieces(u.auth), TailPieces(u.tail);
      && Pieces(u) == a + (h + t)
      && OuterPieces(u) == a + ([Piece(Text(h), Some(HOST))] + t)
      && Render(u) == Text(a) + Text(h) + Text(t)
  {
    hide Text, LabelsOf, SchemaPieces, TailPieces, AuthorityPieces;
    var a, h, t := SchemaPieces(u.schema), AuthorityPieces(u.auth), TailPieces(u.tail);
    PiecesAppend(a, h + t);
    PiecesAppend(h, t);
    Assoc(Text(a), Text(h), Text(t));
  }

  lemma {:induction false} RelativeIsLabelled(u: Url)
    requires ShapedUrl(u) && u.Relative?
    ensures LabelledAs(u, Span(0, 0))
  {
    hide Outer, Text, LabelsOf, Trace, Final, TailPieces, BothPasses;
    OuterLabels(u);
    TailFields(u.tail);
    LabelsFrom(TailPieces(u.tail), Some(HOST));
    LabelsFrom(TailPieces(u.tail), Some(SCHEMA));
    NoHostPasses(Render(u), Span(0, 0));
  }

  lemma {:induction false} ConnectIsLabelled(u: Url) returns (hs: Span)
    requires ShapedUrl(u) && u.Connect?
    ensures LabelledAs(u, hs)
  {
    hide Outer, Text, LabelsOf, Trace, Final, TailPieces, AuthorityPieces, BothPasses, Render, Pieces, OuterPieces,
      LegalAuthority, LegalTail;
    OuterLabels(u);
    ConnectText(u);
    TailFields(u.tail);
    var h, t := AuthorityPieces(u.auth), TailPieces(u.tail);
    OverlayPieces(Render(u), true, u.auth, [], t);
    hs := Span(|Text([])|, |Text(h)|);
  }

  lemma {:induction false} ConnectText(u: Url)
    requires u.Connect?
    ensures var h, t := AuthorityPieces(u.auth), TailPieces(u.tail);
      && Pieces(u) == [] + (h + t)
      && OuterPieces(u) == [] + ([Piece(Text(h), Some(HOST))] + t)
      && Render(u) == Text([]) + Text(h) + Text(t)
  {
    hide Text, LabelsOf, TailPieces, AuthorityPieces;
    NoPiecesText();
    PiecesAppend(AuthorityPieces(u.auth), TailPieces(u.tail));
  }

  lemma NoPiecesText()
    ensures Text([]) == [] && LabelsOf([]) == []
  {}

  lemma SchemaFields(schema: seq<byte>)
    ensures forall k :: 0 <= k < |SchemaPieces(schema)| ==> SchemaPieces(schema)[k].field != Some(HOST)
  {}

  lemma TailFields(t: Tail)
    ensures forall k :: 0 <= k < |TailPieces(t)| ==>
      TailPieces(t)[k].field != Some(HOST) && TailPieces(t)[k].field != Some(SCHEMA)
  {}

  lemma NoHostPasses(buf: seq<byte>, hs: Span)
    requires Some(HOST) !in Outer(buf, false) && Some(SCHEMA) !in Outer(buf, false)
    requires Dead !in Trace(Step, StartState(false), buf) && hs == Span(0, 0)
    ensures BothPasses(buf, false, hs) && Final(buf, false, hs) == Outer(buf, false)
  {}

  lemma {:induction false} LabelledFields(u: Url, f: Uf)
    requires ShapedUrl(u)
    ensures Some(f) in LabelsOf(Pieces(u)) <==> Component(u, f).Some?
  {
    hide Carries, Pieces, Component, LabelsOf, Text, ShapedUrl;
    UrlCarries(u);
    var c := f => Component(u, f);
    var sp := CarriedIsMarked(Pieces(u), c, f);
    if c(f).Some? { MarksHead(LabelsOf(Pieces(u)), f, sp); }
  }

  /** The port component is the port of the authority. */
  lemma PortComponent(u: Url)
    requires ShapedUrl(u)
    ensures Component(u, PORT) == if u.Relative? then None else u.auth.port
    ensures !u.Relative? && u.auth.port.Some? ==> AllDigits(u.auth.port.value)
  {}

  /** What is labelled as the port of a rendered URL is its port. */
  lemma {:induction false} LabelledPort(u: Url) returns (sp: Span)
    requires ShapedUrl(u)
    ensures Component(u, PORT).Some? ==> Marks(LabelsOf(Pieces(u)), PORT, sp)
    ensures forall sp' :: Marks(LabelsOf(Pieces(u)), PORT, sp') ==>
      Component(u, PORT).Some? && sp'.off + sp'.len <= |Render(u)| && Slice(Render(u), sp') == Component(u, PORT).value
  {
    hide Carries, Pieces, Component, LabelsOf, Text, Marks, ShapedUrl;
    UrlCarries(u);
    sp := CarriedIsMarked(Pieces(u), f => Component(u, f), PORT);
    forall sp' | Marks(LabelsOf(Pieces(u)), PORT, sp')
      ensures Component(u, PORT).Some? && sp'.off + sp'.len <= |Render(u)| && Slice(Render(u), sp') == Component(u, PORT).value
    {
      MarksHead(LabelsOf(Pieces(u)), PORT, sp');
      SameSpan(LabelsOf(Pieces(u)), PORT, sp, sp');
    }
  }

  /** The labels of a rendered URL. */
  lemma {:induction false} ShapedIsLabelled(u: Url) returns (hs: Span)
    requires ShapedUrl(u)
    ensures LabelledAs(u, hs)
  {
    hide LabelledAs, ShapedUrl;
    match u {
      case Absolute(_, _, _) => hs := AbsoluteIsLabelled(u);
      case Relative(_) => RelativeIsLabelled(u); hs := Span(0, 0);
      case Connect(_, _) => hs := ConnectIsLabelled(u);
    }
  }

  /** With those labels it is accepted exactly when it is legal. */
  lemma {:induction false} AcceptedIfLegal(u: Url, hs: Span)
    requires ShapedUrl(u) && LabelledAs(u, hs)
    ensures Accepts(Render(u), u.Connect?, hs) <==> LegalUrl(u)
  {
    hide BothPasses, Final, Pieces, Component, ShapedUrl, LabelsOf, Text, AllDigits, PortValue, Marks, Render;
    LabelledBounds(u, hs);
    forall f ensures Some(f) in LabelsOf(Pieces(u)) <==> Component(u, f).Some? {
      LabelledFields(u, f);
    }
    PortComponent(u);
    var sp := LabelledPort(u);
  }

  /** A rendered legal URL is accepted. */
  lemma {:induction false} RenderedIsAccepted(u: Url) returns (hs: Span)
    requires LegalUrl(u)
    ensures Accepts(Render(u), u.Connect?, hs)
    ensures Final(Render(u), u.Connect?, hs) == LabelsOf(Pieces(u))
  {
    hide ShapedUrl, Accepts, BothPasses, Final, Pieces, LabelsOf, Component, SmallPort;
    hs := ShapedIsLabelled(u);
    AcceptedIfLegal(u, hs);
  }

  /**
   Parsing a rendered legal URL reports exactly its components: whatever host span the parser works with,
   its answer is 0, a field is set exactly when the component is there, and its span is the component.
   */
  lemma {:induction false} RoundTrip(u: Url, fs: set<Uf>, data: map<Uf, Span>, hs: Span)
    requires LegalUrl(u)
    ensures exists h :: Accepts(Render(u), u.Connect?, h)
    ensures Accepts(Render(u), u.Connect?, hs) && Matches(Final(Render(u), u.Connect?, hs), fs, data) ==>
      forall f ::
        && (f in fs <==> Component(u, f).Some?)
        && (f in fs ==> f in data && data[f].off + data[f].len <= |Render(u)| && Slice(Render(u), data[f]) == Component(u, f).value)
  {
    var h := RenderedIsAccepted(u);
    UrlCarries(u);
    var buf, final := Render(u), LabelsOf(Pieces(u));
    if Accepts(buf, u.Connect?, hs) && Matches(Final(buf, u.Connect?, hs), fs, data) {
      OneFinal(buf, u.Connect?, h, hs);
      hide Accepts, Final, Pieces, Carries, Component;
      FieldsOf(final, fs, data);
      forall f
        ensures f in fs <==> Component(u, f).Some?
        ensures f in fs ==> f in data && data[f].off + data[f].len <= |buf| && Slice(buf, data[f]) == Component(u, f).value
      {
        var sp := CarriedIsMarked(Pieces(u), f => Component(u, f), f);
        if Component(u, f).Some? {
          MarksHead(final, f, sp);
          SameSpan(final, f, sp, data[f]);
        }
      }
    }
  }

  // ----- A fragment straight after the host

  /** Schema, "://", a legal authority and "#" are refused, whatever follows. */
  lemma {:induction false} FragmentAfterHostIsRefused(schema: seq<byte>, auth: Authority, rest: seq<byte>)
    requires LegalSchema(schema) && LegalAuthority(auth)
    ensures var buf := Text(SchemaPieces(schema)) + Text(AuthorityPieces(auth)) + ([HASH] + rest);
      forall h :: !Accepts(buf, false, h)
  {
    hide Runs, Text, LabelsOf, Trace, After, SchemaPieces, AuthorityPieces, LegalAuthority;
    var text := Text(AuthorityPieces(auth));
    var h := [Piece(text, Some(HOST))];
    SchemaRuns(schema);
    AuthorityIsHost(auth);
    Compose(SpacesBeforeUrl, SchemaPieces(schema), ServerStart, h, Server);
    OnePieceText(text, Some(HOST));
    PiecesAppend(SchemaPieces(schema), h);
    var front := Text(SchemaPieces(schema)) + text;
    RunsAfter(SpacesBeforeUrl, SchemaPieces(schema) + h, Server);
    HashEndsServer(front, rest);
    DeadIsRefused(front + ([HASH] + rest), false);
  }

  lemma RunsAfter(s: State, ps: seq<Piece>, t: State)
    requires Runs(s, ps, t)
    ensures After(Step, s, Text(ps)) == t
  {}

  lemma {:induction false} HashEndsServer(front: seq<byte>, rest: seq<byte>)
    requires After(Step, SpacesBeforeUrl, front) == Server
    ensures Dead in Trace(Step, StartState(false), front + ([HASH] + rest))
  {
    hide Trace, After;
    var y := [HASH] + rest;
    TraceAppend(Step, SpacesBeforeUrl, front, y);
    TraceAt(Step, Server, y, 0);
    var tr := Trace(Step, SpacesBeforeUrl, front) + Trace(Step, Server, y);
    assert tr[|front|] == Step(Server, HASH) == Dead;
  }

  /** A full URL of legal parts is accepted exactly when a fragment comes behind a path or a query. */
  lemma {:induction false} AcceptedExactly(schema: seq<byte>, auth: Authority, tail: Tail)
    requires LegalParts(schema, auth, tail) && SmallPort(auth)
    ensures (exists h :: Accepts(Render(Absolute(schema, auth, tail)), false, h)) <==> FragmentFollows(tail)
  {
    hide Accepts, Final, Text, Pieces;
    var u := Absolute(schema, auth, tail);
    if FragmentFollows(tail) {
      var h := RenderedIsAccepted(u);
    } else {
      FragmentAfterHostIsRefused(schema, auth, tail.fragment.value);
      BareFragmentText(u);
    }
  }

  lemma {:induction false} BareFragmentText(u: Url)
    requires u.Absolute? && !FragmentFollows(u.tail)
    ensures Render(u) == Text(SchemaPieces(u.schema)) + Text(AuthorityPieces(u.auth)) + ([HASH] + u.tail.fragment.value)
  {
    hide Text, LabelsOf, SchemaPieces, AuthorityPieces;
    var a, h, t := SchemaPieces(u.schema), AuthorityPieces(u.auth), TailPieces(u.tail);
    var f := u.tail.fragment.value;
    PiecesAppend(a, h + t);
    PiecesAppend(h, t);
    FragmentText(f);
    assert t == FragmentPieces(Some(f));
    Assoc(Text(a), Text(h), Text(t));
  }

  lemma {:induction false} FragmentText(f: seq<byte>)
    ensures Text(FragmentPieces(Some(f))) == [HASH] + f
  {
    hide Text;
    var n := Hashes(f);
    var marks, body := [HASH] + f[..n], f[n..];
    OnePieceText(marks, None);
    FieldPieceText(body, FRAGMENT);
    PiecesAppend([Piece(marks, None)], FieldPiece(body, FRAGMENT));
    assert marks + body == [HASH] + f;
  }

  lemma {:induction false} FieldPieceText(text: seq<byte>, f: Uf)
    ensures Text(FieldPiece(text, f)) == text
  {
    hide Text;
    NoPiecesText();
    OnePieceText(text, Some(f));
  }

  lemma OneFinal(buf: seq<byte>, isConnect: bool, h: Span, hs: Span)
    requires Accepts(buf, isConnect, h) && Accepts(buf, isConnect, hs)
    ensures Final(buf, isConnect, h) == Final(buf, isConnect, hs)
  {
    if Some(HOST) in Outer(buf, isConnect) {
      SameSpan(Outer(buf, isConnect), HOST, h, hs);
    }
  }

  // ----- The port number

  /** The decimal text of n, with leading zeros. */
  function Decimal(zeros: nat, n: nat): seq<byte> {
    Number.Text(seq(zeros, _ => 0) + Number.Digits(n, 10))
  }

  /** The number in a port field is that of its digits. */
  lemma {:induction false} PortIsNumeral(ds: seq<nat>)
    requires forall i :: 0 <= i < |ds| ==> ds[i] < 10
    ensures AllDigits(Number.Text(ds)) && PortValue(Number.Text(ds)) == Number.Value(ds, 10)
  {
    hide IsNum, Number.DigitChar, Number.Value, PortValue;
    forall i | 0 <= i < |ds| ensures IsNum(Number.Text(ds)[i]) {
      DigitIsNum(ds[i]);
    }
    if ds == [] {
      Number.ValueOfNone(10);
      NoPort();
    } else {
      var hi, lo := ds[..|ds| - 1], ds[|ds| - 1];
      PortIsNumeral(hi);
      DigitIsNum(lo);
      Number.ValueSnoc(ds, 10);
      NextDigit(Number.Text(hi), Number.DigitChar(lo), Number.Text(ds));
    }
  }

  lemma DigitIsNum(d: nat)
    requires d < 10
    ensures IsNum(Number.DigitChar(d)) && Number.DigitChar(d) == 48 + d
  {}

  lemma NoPort()
    ensures PortValue([]) == 0
  {}

  lemma {:induction false} LeadingZeros(zeros: nat, ds: seq<nat>)
    ensures Number.Value(seq(zeros, _ => 0) + ds, 10) == Number.Value(ds, 10)
  {
    hide Number.Value;
    var z := seq(zeros, _ => 0);
    Number.ValueOfNone(10);
    if ds != [] {
      LeadingZeros(zeros, ds[..|ds| - 1]);
      assert (z + ds)[..|z + ds| - 1] == z + ds[..|ds| - 1];
      Number.ValueSnoc(z + ds, 10);
      Number.ValueSnoc(ds, 10);
    } else if zeros > 0 {
      LeadingZeros(zeros - 1, []);
      assert (z + ds)[..zeros - 1] == seq(zeros - 1, _ => 0) + [] && (z + ds)[zeros - 1] == 0;
      Number.ValueSnoc(z + ds, 10);
    } else {
      assert z + [] == [];
    }
  }

  /** The decimal text of a number, with any leading zeros, is read as that number. */
  lemma {:induction false} DecimalPort(zeros: nat, n: nat)
    ensures AllDigits(Decimal(zeros, n)) && PortValue(Decimal(zeros, n)) == n
  {
    hide Number.Value, Number.Digits, Number.Text, PortValue, AllDigits;
    var ds := seq(zeros, _ => 0) + Number.Digits(n, 10);
    PortIsNumeral(ds);
    LeadingZeros(zeros, Number.Digits(n, 10));
    Number.DigitsDenote(n, 10);
  }

  /** What the parser leaves of a rendered legal URL: its components, and the number written as its port. */
  ghost predicate Reports(u: Url, fs: set<Uf>, data: map<Uf, Span>, port: nat) {
    && (forall f ::
         && (f in fs <==> Component(u, f).Some?)
         && (f in fs ==> f in data && data[f].off + data[f].len <= |Render(u)| && Slice(Render(u), data[f]) == Component(u, f).value))
    && (Component(u, PORT) == None ==> port == 0)
    && (forall zeros: nat, n: nat :: Component(u, PORT) == Some(Decimal(zeros, n)) ==> port == n)
  }

  /** The parser on a rendered legal URL. */
  method ParseRendered(u: Url, p: HttpParserUrl) returns (r: int)
    requires LegalUrl(u) && |Render(u)| <= 0xffff
    modifies p
    ensures r == 0 && Reports(u, p.fieldSet, p.fieldData, p.port)
  {
    hide LegalUrl, Accepts, Matches, Final, Component, Render, PortValue, AllDigits, Decimal, Slice;
    ghost var h := RenderedIsAccepted(u);
    ghost var hs;
    r, hs := ParseUrl(Render(u), u.Connect?, p);
    RoundTrip(u, p.fieldSet, p.fieldData, hs);
    forall zeros: nat, n: nat | Component(u, PORT) == Some(Decimal(zeros, n)) ensures p.port == n {
      DecimalPort(zeros, n);
    }
  }
}
