/**
 The language of the URL parser: what it accepts are the rendered legal URLs and nothing else.
 */
module UrlLanguage {
  import opened Common
  import opened UrlMachine
  import opened UrlParser
  import opened UrlRoundTrip

  // ----- Texts without pieces

  function MarkedText(mark: byte, text: Option<seq<byte>>): seq<byte> {
    if text.None? then [] else [mark] + text.value
  }

  function TailText(t: Tail): seq<byte> {
    t.path + (MarkedText(QUESTION, t.query) + MarkedText(HASH, t.fragment))
  }

  function HostTextOf(h: HostText): seq<byte> {
    match h
    case Name(n) => n
    case V6Address(a, z) => [LBRACKET] + (a + MarkedText(PERCENT, z)) + [RBRACKET]
  }

  function AuthorityText(a: Authority): seq<byte> {
    (if a.userinfo.None? then [] else a.userinfo.value + [AT]) + (HostTextOf(a.host) + MarkedText(COLON, a.port))
  }

  lemma {:induction false} TailIsText(t: Tail)
    ensures Text(TailPieces(t)) == TailText(t)
  {
    hide Text, FragmentPieces, QueryPieces, FieldPiece;
    NoPiecesText();
    FieldPieceText(t.path, PATH);
    QueryIsText(t.query);
    if t.fragment.Some? { FragmentText(t.fragment.value); } else { NoFragment(); }
    PiecesAppend(QueryPieces(t.query), FragmentPieces(t.fragment));
    PiecesAppend(FieldPiece(t.path, PATH), QueryPieces(t.query) + FragmentPieces(t.fragment));
  }

  lemma NoFragment()
    ensures FragmentPieces(None) == []
  {}

  lemma {:induction false} QueryIsText(q: Option<seq<byte>>)
    ensures Text(QueryPieces(q)) == MarkedText(QUESTION, q)
  {
    hide Text;
    NoPiecesText();
    if q.Some? {
      OnePieceText([QUESTION], None);
      FieldPieceText(q.value, QUERY);
      PiecesAppend([Piece([QUESTION], None)], FieldPiece(q.value, QUERY));
    }
  }

  lemma {:induction false} HostIsText(h: HostText)
    ensures Text(HostPieces(h)) == HostTextOf(h)
  {
    hide Text;
    if h.Name? {
      OnePieceText(h.name, Some(HOST));
    } else {
      var inner := h.addr + MarkedText(PERCENT, h.zone);
      if h.zone.Some? { assert h.addr + [PERCENT] + h.zone.value == inner; } else { assert h.addr == inner; }
      var open, middle, close := [Piece([LBRACKET], None)], [Piece(inner, Some(HOST))], [Piece([RBRACKET], None)];
      OnePieceText([LBRACKET], None);
      OnePieceText(inner, Some(HOST));
      OnePieceText([RBRACKET], None);
      PiecesAppend(open, middle);
      PiecesAppend(open + middle, close);
      assert HostPieces(h) == open + middle + close;
    }
  }

  lemma {:induction false} AuthorityIsText(a: Authority)
    ensures Text(AuthorityPieces(a)) == AuthorityText(a)
  {
    hide Text, HostPieces, PortPieces, UserinfoPieces;
    HostIsText(a.host);
    PortIsText(a.port);
    PiecesAppend(HostPieces(a.host), PortPieces(a.port));
    if a.userinfo.Some? { UserinfoText(a.userinfo.value); } else { NoUserinfo(); NoPiecesText(); }
    PiecesAppend(UserinfoPieces(a.userinfo), HostPieces(a.host) + PortPieces(a.port));
  }

  lemma NoUserinfo()
    ensures UserinfoPieces(None) == []
  {}

  lemma {:induction false} PortIsText(port: Option<seq<byte>>)
    ensures Text(PortPieces(port)) == MarkedText(COLON, port)
  {
    hide Text;
    NoPiecesText();
    if port.Some? { TwoPiecesText([COLON], None, port.value, Some(PORT)); }
  }

  // ----- What keeps the first machine alive

  /** No character of the text is refused. */
  ghost predicate Alive(s: State, text: seq<byte>) {
    Dead !in Trace(Step, s, text)
  }

  lemma AliveOn(s: State, text: seq<byte>)
    requires text != []
    ensures Alive(s, text) <==> Step(s, text[0]) != Dead && Alive(Step(s, text[0]), text[1..])
  {
    hide Step;
    TraceCons(Step, s, text);
  }

  lemma {:induction false} FragmentPart(s: State, text: seq<byte>)
    requires (s == Fragment || s == FragmentStart) && Alive(s, text)
    ensures forall i :: 0 <= i < |text| ==> IsFragmentChar(text[i])
    decreases |text|
  {
    if text != [] {
      hide Alive;
      AliveOn(s, text);
      FragmentPart(Step(s, text[0]), text[1..]);
    }
  }

  lemma {:induction false} QueryPart(s: State, text: seq<byte>) returns (q: seq<byte>, f: Option<seq<byte>>)
    requires (s == QueryStart || s == Query) && Alive(s, text)
    ensures text == q + MarkedText(HASH, f)
    ensures forall i :: 0 <= i < |q| ==> IsQueryChar(q[i])
    ensures f.Some? ==> forall i :: 0 <= i < |f.value| ==> IsFragmentChar(f.value[i])
    decreases |text|
  {
    hide Alive, IsUrlChar, IsFragmentChar;
    q, f := [], None;
    if text != [] {
      AliveOn(s, text);
      QueryChars(s, text[0]);
      if IsQueryChar(text[0]) {
        q, f := QueryPart(Query, text[1..]);
        q := [text[0]] + q;
      } else {
        f := Some(text[1..]);
        FragmentPart(FragmentStart, text[1..]);
      }
    }
  }

  lemma QueryChars(s: State, c: byte)
    requires (s == QueryStart || s == Query) && Step(s, c) != Dead
    ensures if IsQueryChar(c) then Step(s, c) == Query else c == HASH && Step(s, c) == FragmentStart
  {}

  lemma {:induction false} PathPart(text: seq<byte>) returns (t: Tail)
    requires Alive(Path, text)
    ensures text == TailText(t) && LegalTailParts(t)
    decreases |text|
  {
    hide Alive, IsUrlChar, IsFragmentChar, IsQueryChar;
    t := NoTail;
    if text != [] {
      AliveOn(Path, text);
      PathChars(text[0]);
      if IsUrlChar(text[0]) {
        t := PathPart(text[1..]);
        t := t.(path := [text[0]] + t.path);
      } else if text[0] == QUESTION {
        var q, f := QueryPart(QueryStart, text[1..]);
        t := Tail([], Some(q), f);
      } else {
        FragmentPart(FragmentStart, text[1..]);
        t := Tail([], None, Some(text[1..]));
      }
    }
  }

  lemma PathChars(c: byte)
    requires Step(Path, c) != Dead
    ensures if IsUrlChar(c) then Step(Path, c) == Path
      else if c == QUESTION then Step(Path, c) == QueryStart
      else c == HASH && Step(Path, c) == FragmentStart
  {}

  predicate InAuthority(s: State) { s == ServerStart || s == Server || s == ServerWithAt }

  /** The labels from a state on. */
  function LabelsOn(s: State, text: seq<byte>): (l: Labels)
    ensures |l| == |text|
  {
    seq(|text|, i requires 0 <= i < |text| => Label(Trace(Step, s, text)[i]))
  }

  lemma LabelsCons(s: State, text: seq<byte>)
    requires text != []
    ensures LabelsOn(s, text) == [Label(Step(s, text[0]))] + LabelsOn(Step(s, text[0]), text[1..])
  {
    hide Step, Label;
    TraceCons(Step, s, text);
  }

  /** The authority, all of it labelled as host, and the tail, in which nothing is. */
  lemma {:induction false} ServerPart(s: State, text: seq<byte>) returns (server: seq<byte>, t: Tail)
    requires InAuthority(s) && Alive(s, text)
    ensures text == server + TailText(t)
    ensures LegalTail(t) && (t.path != [] ==> t.path[0] == SLASH)
    ensures LabelsOn(s, text)[..|server|] == Copies(|server|, Some(HOST))
    ensures Some(HOST) !in LabelsOn(s, text)[|server|..]
    decreases |text|
  {
    hide Alive, IsUrlChar, IsFragmentChar, IsQueryChar, LabelsOn, Step, Label, Copies;
    NothingCopied();
    server, t := [], NoTail;
    if text != [] {
      AliveOn(s, text);
      LabelsCons(s, text);
      ServerChars(s, text[0]);
      var next := Step(s, text[0]);
      if InAuthority(next) {
        server, t := ServerPart(next, text[1..]);
        HostInFront(LabelsOn(s, text), LabelsOn(next, text[1..]), |server|);
        server := [text[0]] + server;
      } else {
        NoHostBehind(next, text[1..]);
        if text[0] == SLASH {
          t := PathPart(text[1..]);
          SlashIsUrlChar();
          t := t.(path := [SLASH] + t.path);
        } else {
          var q, f := QueryPart(QueryStart, text[1..]);
          t := Tail([], Some(q), f);
        }
      }
    }
  }

  lemma NothingCopied()
    ensures Copies(0, Some(HOST)) == []
  {}

  lemma HostInFront(l: Labels, tail: Labels, n: nat)
    requires l == [Some(HOST)] + tail && n <= |tail| && tail[..n] == Copies(n, Some(HOST)) && Some(HOST) !in tail[n..]
    ensures l[..n + 1] == Copies(n + 1, Some(HOST)) && Some(HOST) !in l[n + 1..]
  {
    assert l[..n + 1] == [Some(HOST)] + tail[..n] && l[n + 1..] == tail[n..];
  }

  lemma SlashIsUrlChar()
    ensures IsUrlChar(SLASH) && IsUrlChar(STAR)
  {}

  lemma ServerChars(s: State, c: byte)
    requires InAuthority(s) && Step(s, c) != Dead
    ensures InAuthority(Step(s, c)) ==> Label(Step(s, c)) == Some(HOST)
    ensures !InAuthority(Step(s, c)) ==>
      if c == SLASH then Step(s, c) == Path && Label(Path) == Some(PATH)
      else c == QUESTION && Step(s, c) == QueryStart && Label(QueryStart) == None
  {}

  predicate BehindServer(s: State) {
    s == Path || s == QueryStart || s == Query || s == FragmentStart || s == Fragment
  }

  lemma {:induction false} NoHostBehind(s: State, text: seq<byte>)
    requires BehindServer(s) && Alive(s, text)
    ensures Some(HOST) !in LabelsOn(s, text) && Some(SCHEMA) !in LabelsOn(s, text)
    decreases |text|
  {
    if text != [] {
      hide Alive, LabelsOn;
      AliveOn(s, text);
      LabelsCons(s, text);
      NoHostBehind(Step(s, text[0]), text[1..]);
    }
  }

  predicate InSchema(s: State) { s == Schema || s == SchemaSlash || s == SchemaSlashSlash }

  function MarksLeft(s: State): seq<byte> {
    if s == Schema then [COLON, SLASH, SLASH] else if s == SchemaSlash then [SLASH, SLASH] else [SLASH]
  }

  /** The schema goes on and is complete, or the text has no host at all. */
  lemma {:induction false} SchemaPart(s: State, text: seq<byte>) returns (whole: bool, more: seq<byte>, rest: seq<byte>)
    requires InSchema(s) && Alive(s, text)
    ensures !whole ==> Some(HOST) !in LabelsOn(s, text)
    ensures whole ==>
      var front := more + MarksLeft(s);
      && text == front + rest && Alive(ServerStart, rest)
      && (forall i :: 0 <= i < |more| ==> IsAlpha(more[i])) && (more != [] ==> s == Schema)
      && Some(HOST) !in LabelsOn(s, text)[..|front|]
      && LabelsOn(s, text)[|front|..] == LabelsOn(ServerStart, rest)
    decreases |text|
  {
    hide Alive, LabelsOn, Step, Label, IsAlpha;
    whole, more, rest := false, [], [];
    if text == [] { return; }
    AliveOn(s, text);
    LabelsCons(s, text);
    SchemaChars(s, text[0]);
    var next := Step(s, text[0]);
    if next == ServerStart {
      whole, rest := true, text[1..];
    } else {
      whole, more, rest := SchemaPart(next, text[1..]);
      if whole {
        OneInFront(LabelsOn(s, text), LabelsOn(next, text[1..]), |more + MarksLeft(next)|);
        SchemaText(s, text, more, rest);
      } else {
        OneInFront(LabelsOn(s, text), LabelsOn(next, text[1..]), |text| - 1);
      }
      if next == Schema { more := [text[0]] + more; }
    }
  }

  lemma OneInFront(l: Labels, tail: Labels, n: nat)
    requires l != [] && l == [l[0]] + tail && l[0] != Some(HOST) && n <= |tail|
    ensures Some(HOST) !in tail ==> Some(HOST) !in l
    ensures Some(HOST) !in tail[..n] ==> Some(HOST) !in l[..n + 1]
    ensures l[n + 1..] == tail[n..]
  {
    assert l[..n + 1] == [l[0]] + tail[..n];
  }

  lemma SchemaText(s: State, text: seq<byte>, more: seq<byte>, rest: seq<byte>)
    requires InSchema(s) && text != [] && Step(s, text[0]) != Dead && InSchema(Step(s, text[0]))
    requires text[1..] == more + MarksLeft(Step(s, text[0])) + rest && (more != [] ==> Step(s, text[0]) == Schema)
    ensures text == (if Step(s, text[0]) == Schema then [text[0]] + more else more) + MarksLeft(s) + rest
  {
    hide Step;
    SchemaChars(s, text[0]);
    assert text == [text[0]] + text[1..];
  }

  lemma SchemaChars(s: State, c: byte)
    requires InSchema(s) && Step(s, c) != Dead
    ensures Label(Step(s, c)) != Some(HOST)
    ensures s == Schema ==> if IsAlpha(c) then Step(s, c) == Schema else c == COLON && Step(s, c) == SchemaSlash
    ensures s == SchemaSlash ==> c == SLASH && Step(s, c) == SchemaSlashSlash
    ensures s == SchemaSlashSlash ==> c == SLASH && Step(s, c) == ServerStart
  {}

  // ----- What the host machine accepts

  /** From s, no character of the text is refused, and the machine may end behind it. */
  ghost predicate HostGood(s: HostState, text: seq<byte>) {
    HDead !in Trace(HStep, s, text) && HostMayEnd(After(HStep, s, text))
  }

  lemma HostOn(s: HostState, text: seq<byte>)
    ensures text == [] ==> (HostGood(s, text) <==> HostMayEnd(s))
    ensures text != [] ==> (HostGood(s, text) <==> HStep(s, text[0]) != HDead && HostGood(HStep(s, text[0]), text[1..]))
  {
    hide HStep, HostMayEnd;
    if text != [] { TraceCons(HStep, s, text); }
  }

  lemma {:induction false} PortPart(s: HostState, text: seq<byte>)
    requires (s == PortStart || s == Port) && HostGood(s, text)
    ensures AllDigits(text) && (s == PortStart ==> text != [])
    decreases |text|
  {
    hide HostGood;
    HostOn(s, text);
    if text != [] { PortPart(HStep(s, text[0]), text[1..]); }
  }

  /** Behind the host: nothing, or a colon and digits. */
  lemma BehindHost(text: seq<byte>) returns (port: Option<seq<byte>>)
    requires HostGood(V6End, text)
    ensures text == MarkedText(COLON, port) && (port.Some? ==> port.value != [] && AllDigits(port.value))
  {
    hide HostGood;
    port := None;
    HostOn(V6End, text);
    if text != [] {
      PortPart(PortStart, text[1..]);
      port := Some(text[1..]);
    }
  }

  lemma {:induction false} NamePart(text: seq<byte>) returns (name: seq<byte>, port: Option<seq<byte>>)
    requires HostGood(HostState.Host, text)
    ensures text == name + MarkedText(COLON, port) && (forall i :: 0 <= i < |name| ==> IsHostChar(name[i]))
    ensures port.Some? ==> port.value != [] && AllDigits(port.value)
    decreases |text|
  {
    hide HostGood, IsHostChar, AllDigits;
    name, port := [], None;
    HostOn(HostState.Host, text);
    if text != [] {
      NameChars(text[0]);
      if IsHostChar(text[0]) {
        name, port := NamePart(text[1..]);
        name := [text[0]] + name;
      } else {
        PortPart(PortStart, text[1..]);
        port := Some(text[1..]);
      }
    }
  }

  lemma NameChars(c: byte)
    ensures HStep(HostState.Host, c) != HDead ==>
      if IsHostChar(c) then HStep(HostState.Host, c) == HostState.Host else c == COLON && HStep(HostState.Host, c) == PortStart
  {}

  lemma {:induction false} ZonePart(s: HostState, text: seq<byte>) returns (zone: seq<byte>, rest: seq<byte>)
    requires (s == ZoneStart || s == Zone) && HostGood(s, text)
    ensures text == zone + [RBRACKET] + rest && HostGood(V6End, rest)
    ensures (forall i :: 0 <= i < |zone| ==> IsZoneChar(zone[i])) && (s == ZoneStart ==> zone != [])
    decreases |text|
  {
    hide HostGood, IsZoneChar;
    zone, rest := [], [];
    HostOn(s, text);
    if text != [] {
      ZoneChars(s, text[0]);
      if s == Zone && text[0] == RBRACKET {
        rest := text[1..];
      } else {
        zone, rest := ZonePart(Zone, text[1..]);
        zone := [text[0]] + zone;
      }
    }
  }

  lemma ZoneChars(s: HostState, c: byte)
    requires s == ZoneStart || s == Zone
    ensures HStep(s, c) != HDead ==>
      if s == Zone && c == RBRACKET then HStep(s, c) == V6End else IsZoneChar(c) && HStep(s, c) == Zone
  {}

  lemma {:induction false} AddressPart(s: HostState, text: seq<byte>)
      returns (addr: seq<byte>, zone: Option<seq<byte>>, rest: seq<byte>)
    requires (s == V6Start || s == V6) && HostGood(s, text)
    ensures text == addr + MarkedText(PERCENT, zone) + [RBRACKET] + rest && HostGood(V6End, rest)
    ensures (forall i :: 0 <= i < |addr| ==> IsV6Char(addr[i])) && (s == V6Start ==> addr != [])
    ensures zone.Some? ==> zone.value != [] && forall i :: 0 <= i < |zone.value| ==> IsZoneChar(zone.value[i])
    decreases |text|
  {
    hide HostGood, IsZoneChar, IsV6Char;
    addr, zone, rest := [], None, [];
    HostOn(s, text);
    if text != [] {
      AddressChars(s, text[0]);
      if IsV6Char(text[0]) {
        addr, zone, rest := AddressPart(V6, text[1..]);
        addr := [text[0]] + addr;
      } else if text[0] == RBRACKET {
        rest := text[1..];
      } else {
        var z;
        z, rest := ZonePart(ZoneStart, text[1..]);
        zone := Some(z);
      }
    }
  }

  lemma AddressChars(s: HostState, c: byte)
    requires s == V6Start || s == V6
    ensures HStep(s, c) != HDead ==>
      if IsV6Char(c) then HStep(s, c) == V6
      else s == V6 && if c == RBRACKET then HStep(s, c) == V6End else c == PERCENT && HStep(s, c) == ZoneStart
  {}

  lemma {:induction false} HostPart(text: seq<byte>) returns (h: HostText, port: Option<seq<byte>>)
    requires HostGood(HostStart, text)
    ensures LegalHost(h) && text == HostTextOf(h) + MarkedText(COLON, port)
    ensures port.Some? ==> port.value != [] && AllDigits(port.value)
  {
    hide HostGood, IsHostChar, AllDigits, IsZoneChar, IsV6Char;
    HostOn(HostStart, text);
    HostChars(text);
    if text[0] == LBRACKET {
      var addr, zone, rest := AddressPart(V6Start, text[1..]);
      port := BehindHost(rest);
      h := V6Address(addr, zone);
    } else {
      var name;
      name, port := NamePart(text[1..]);
      h := Name([text[0]] + name);
    }
  }

  lemma HostChars(text: seq<byte>)
    requires if text == [] then HostMayEnd(HostStart) else HStep(HostStart, text[0]) != HDead
    ensures text != []
    ensures if text[0] == LBRACKET then HStep(HostStart, text[0]) == V6Start
      else IsHostChar(text[0]) && HStep(HostStart, text[0]) == HostState.Host
  {}

  lemma {:induction false} UserinfoPart(s: HostState, text: seq<byte>) returns (ui: seq<byte>, rest: seq<byte>)
    requires (s == UserinfoStart || s == Userinfo) && HostGood(s, text)
    ensures text == ui + [AT] + rest && HostGood(HostStart, rest)
    ensures forall i :: 0 <= i < |ui| ==> IsUserinfoChar(ui[i])
    decreases |text|
  {
    hide HostGood, IsUserinfoChar;
    ui, rest := [], [];
    HostOn(s, text);
    if text != [] {
      UserinfoChars(s, text[0]);
      if text[0] == AT {
        rest := text[1..];
      } else {
        ui, rest := UserinfoPart(Userinfo, text[1..]);
        ui := [text[0]] + ui;
      }
    }
  }

  lemma UserinfoChars(s: HostState, c: byte)
    requires s == UserinfoStart || s == Userinfo
    ensures HStep(s, c) != HDead ==>
      if c == AT then HStep(s, c) == HostStart else IsUserinfoChar(c) && HStep(s, c) == Userinfo
  {}

  /** An accepted host text is a legal authority. */
  lemma {:induction false} AuthorityPart(text: seq<byte>) returns (a: Authority)
    requires HostAccepted(text, AT in text)
    ensures LegalAuthority(a) && AuthorityText(a) == text
  {
    hide HostGood, LegalHost, IsUserinfoChar, AllDigits, HostTextOf;
    assert HostGood(HostStartState(AT in text), text) by { AcceptedIsGood(text, AT in text); }
    if AT in text {
      var ui, rest := UserinfoPart(UserinfoStart, text);
      var h, port := HostPart(rest);
      a := Authority(Some(ui), h, port);
    } else {
      var h, port := HostPart(text);
      a := Authority(None, h, port);
    }
  }

  lemma AcceptedIsGood(text: seq<byte>, at: bool)
    requires HostAccepted(text, at)
    ensures HostGood(HostStartState(at), text)
  {}

  // ----- The language

  /** With the whole authority labelled as host, the host span is the authority. */
  lemma {:induction false} HostIsServer(buf: seq<byte>, isConnect: bool, hs: Span, front: seq<byte>, server: seq<byte>, behind: seq<byte>)
    requires buf == front + server + behind && server != [] && Accepts(buf, isConnect, hs)
    requires var l := Outer(buf, isConnect);
      && Some(HOST) !in l[..|front|] && l[|front|..|front| + |server|] == Copies(|server|, Some(HOST))
      && Some(HOST) !in l[|front| + |server|..]
    ensures hs == Span(|front|, |server|) && HostAccepted(server, AT in server)
  {
    hide Outer, HostAccepted, FoundAt, Final, Copies;
    var l := Outer(buf, isConnect);
    var a, b := l[..|front|], l[|front| + |server|..];
    assert l == a + Copies(|server|, Some(HOST)) + b;
    MarksInside(a, |server|, b, HOST);
    MarksHead(l, HOST, Span(|front|, |server|));
    AcceptedHost(buf, isConnect, hs);
    SameSpan(l, HOST, hs, Span(|front|, |server|));
    assert Slice(buf, hs) == server;
    FoundAtIsAt(buf, isConnect);
    AtInHost(buf, l, hs);
  }

  lemma AcceptedHost(buf: seq<byte>, isConnect: bool, hs: Span)
    requires Accepts(buf, isConnect, hs)
    ensures Dead !in Trace(Step, StartState(isConnect), buf)
    ensures Some(SCHEMA) in Outer(buf, isConnect) ==> Some(HOST) in Outer(buf, isConnect)
    ensures isConnect ==> Some(HOST) in Final(buf, isConnect, hs)
    ensures Some(HOST) in Outer(buf, isConnect) ==>
      Marks(Outer(buf, isConnect), HOST, hs) && hs.off + hs.len <= |buf| && HostAccepted(Slice(buf, hs), FoundAt(buf, isConnect))
    ensures Some(HOST) !in Outer(buf, isConnect) ==> Final(buf, isConnect, hs) == Outer(buf, isConnect)
  {}

  lemma OuterIsLabels(buf: seq<byte>, isConnect: bool)
    ensures Outer(buf, isConnect) == LabelsOn(StartState(isConnect), buf)
  {}

  /** A shaped URL whose text is accepted is legal. */
  lemma {:induction false} LegalWhenAccepted(u: Url, hs: Span)
    requires ShapedUrl(u) && Accepts(Render(u), u.Connect?, hs)
    ensures LegalUrl(u)
  {
    hide ShapedUrl, Accepts, BothPasses, Final, LegalUrl, Render;
    var h := ShapedIsLabelled(u);
    OtherSpan(Render(u), u.Connect?, hs, h);
    AcceptedIfLegal(u, h);
  }

  lemma OtherSpan(buf: seq<byte>, isConnect: bool, hs: Span, h: Span)
    requires Accepts(buf, isConnect, hs) && BothPasses(buf, isConnect, h)
    ensures Accepts(buf, isConnect, h)
  {
    hide Outer, HostAccepted, FoundAt;
    if Some(HOST) in Outer(buf, isConnect) {
      SameSpan(Outer(buf, isConnect), HOST, hs, h);
    }
  }

  lemma {:induction false} RelativeText(t: Tail)
    ensures Render(Relative(t)) == TailText(t)
  {
    TailIsText(t);
  }

  lemma {:induction false} AbsoluteIsText(schema: seq<byte>, a: Authority, t: Tail)
    ensures Render(Absolute(schema, a, t)) == schema + [COLON, SLASH, SLASH] + (AuthorityText(a) + TailText(t))
  {
    hide Text, AuthorityPieces, TailPieces, AuthorityText, TailText;
    AuthorityIsText(a);
    TailIsText(t);
    TwoPiecesText(schema, Some(SCHEMA), [COLON, SLASH, SLASH], None);
    PiecesAppend(AuthorityPieces(a), TailPieces(t));
    PiecesAppend(SchemaPieces(schema), AuthorityPieces(a) + TailPieces(t));
  }

  lemma {:induction false} ConnectIsText(a: Authority, t: Tail)
    ensures Render(Connect(a, t)) == AuthorityText(a) + TailText(t)
  {
    hide Text, AuthorityPieces, TailPieces, AuthorityText, TailText;
    AuthorityIsText(a);
    TailIsText(t);
    PiecesAppend(AuthorityPieces(a), TailPieces(t));
  }

  lemma StartChars(c: byte)
    requires Step(SpacesBeforeUrl, c) != Dead
    ensures if c == SLASH || c == STAR then Step(SpacesBeforeUrl, c) == Path && IsUrlChar(c)
      else IsAlpha(c) && Step(SpacesBeforeUrl, c) == Schema && Label(Schema) == Some(SCHEMA)
  {}

  /** The argument of CONNECT. */
  lemma {:induction false} ConnectForm(buf: seq<byte>, hs: Span) returns (u: Url)
    requires Accepts(buf, true, hs)
    ensures ShapedUrl(u) && u.Connect? && Render(u) == buf
  {
    hide Accepts, Outer, LabelsOn, Alive, LegalAuthority, LegalTail, Render, AuthorityText, TailText, HostAccepted, Final;
    AcceptedHost(buf, true, hs);
    OuterIsLabels(buf, true);
    StartIsAlive(buf, true);
    var server, t := ServerPart(ServerStart, buf);
    WholeSlice(LabelsOn(ServerStart, buf));
    assert [] + server + TailText(t) == buf;
    HostIsServer(buf, true, hs, [], server, TailText(t));
    var a := AuthorityPart(server);
    ConnectIsText(a, t);
    u := Connect(a, t);
  }

  lemma StartIsAlive(buf: seq<byte>, isConnect: bool)
    requires Dead !in Trace(Step, StartState(isConnect), buf)
    ensures Alive(StartState(isConnect), buf)
  {}

  lemma SchemaNeedsHost(buf: seq<byte>, hs: Span)
    requires Accepts(buf, false, hs)
    ensures Alive(SpacesBeforeUrl, buf) && (Some(SCHEMA) in Outer(buf, false) ==> Some(HOST) in Outer(buf, false))
  {
    hide Accepts, Outer, Final, HostAccepted;
    AcceptedHost(buf, false, hs);
    StartIsAlive(buf, false);
  }

  /** The schema of a text that begins with a letter; no label in front of the authority is host. */
  lemma {:induction false} SchemaOf(buf: seq<byte>, hs: Span) returns (more: seq<byte>, rest: seq<byte>)
    requires Accepts(buf, false, hs) && buf != [] && buf[0] != SLASH && buf[0] != STAR
    ensures LegalSchema([buf[0]] + more) && Alive(ServerStart, rest) && buf[1..] == more + [COLON, SLASH, SLASH] + rest
    ensures var l := Outer(buf, false);
      && l[0] == Some(SCHEMA) && Some(HOST) in l && Some(HOST) !in l[1..][..|more| + 3]
      && l[1..][|more| + 3..] == LabelsOn(ServerStart, rest)
  {
    hide Accepts, Outer, LabelsOn, Alive, Step, Label, IsAlpha;
    SchemaNeedsHost(buf, hs);
    OuterIsLabels(buf, false);
    AliveOn(SpacesBeforeUrl, buf);
    StartChars(buf[0]);
    LabelsCons(SpacesBeforeUrl, buf);
    var l := Outer(buf, false);
    assert l[0] == Some(SCHEMA) && l[1..] == LabelsOn(Schema, buf[1..]);
    HostIsLater(l, LabelsOn(Schema, buf[1..]));
    var whole;
    whole, more, rest := SchemaPart(Schema, buf[1..]);
  }

  /** A text that begins with a letter. */
  lemma {:induction false} AbsoluteForm(buf: seq<byte>, hs: Span) returns (u: Url)
    requires Accepts(buf, false, hs) && buf != [] && buf[0] != SLASH && buf[0] != STAR
    ensures ShapedUrl(u) && u.Absolute? && Render(u) == buf
  {
    hide Accepts, Outer, LabelsOn, Alive, LegalAuthority, LegalTailParts, FragmentFollows, Render, AuthorityText, TailText,
      HostAccepted, LegalSchema;
    var more, rest := SchemaOf(buf, hs);
    var l := Outer(buf, false);
    var server, t := ServerPart(ServerStart, rest);
    var schema := [buf[0]] + more;
    var front := schema + [COLON, SLASH, SLASH];
    SchemaLabels(l, l[1..], |more| + 3, LabelsOn(ServerStart, rest), |server|);
    FrontOf(buf, more, rest, server, TailText(t));
    HostIsServer(buf, false, hs, front, server, TailText(t));
    var a := AuthorityPart(server);
    AbsoluteIsText(schema, a, t);
    u := Absolute(schema, a, t);
    Assoc(front, server, TailText(t));
  }

  lemma WholeSlice(l: Labels)
    ensures l[0..] == l && l[..0] == []
  {}

  lemma HostIsLater(l: Labels, tail: Labels)
    requires l != [] && l[0] == Some(SCHEMA) && l[1..] == tail && Some(HOST) in l
    ensures Some(HOST) in tail
  {}

  lemma FrontOf(buf: seq<byte>, more: seq<byte>, rest: seq<byte>, server: seq<byte>, tail: seq<byte>)
    requires buf != [] && buf[1..] == more + [COLON, SLASH, SLASH] + rest && rest == server + tail
    ensures buf == [buf[0]] + more + [COLON, SLASH, SLASH] + server + tail
  {
    assert buf == [buf[0]] + buf[1..];
  }

  /** The labels of schema, authority and tail, from those of the parts. */
  lemma SchemaLabels(l: Labels, inner: Labels, n: nat, behind: Labels, m: nat)
    requires l != [] && l[0] == Some(SCHEMA) && l[1..] == inner && Some(HOST) in l
    requires n <= |inner| && Some(HOST) !in inner[..n] && inner[n..] == behind
    requires m <= |behind| && behind[..m] == Copies(m, Some(HOST)) && Some(HOST) !in behind[m..]
    ensures m > 0 && n + 1 + m <= |l| && Some(HOST) !in l[..n + 1]
    ensures l[n + 1..n + 1 + m] == Copies(m, Some(HOST)) && Some(HOST) !in l[n + 1 + m..]
  {
    hide Copies;
    NothingCopied();
    var a, b, c := [l[0]] + inner[..n], behind[..m], behind[m..];
    Assemble(l, inner, n, behind, m);
    ThreeParts(l, a, b, c);
    assert Some(HOST) !in a;
    assert m == 0 ==> b == [];
  }

  lemma Assemble(l: Labels, inner: Labels, n: nat, behind: Labels, m: nat)
    requires l != [] && l[1..] == inner && n <= |inner| && inner[n..] == behind && m <= |behind|
    ensures l == [l[0]] + inner[..n] + behind[..m] + behind[m..]
  {
    assert inner == inner[..n] + behind && behind == behind[..m] + behind[m..];
  }

  lemma ThreeParts(l: Labels, a: Labels, b: Labels, c: Labels)
    requires l == a + b + c
    ensures l[..|a|] == a && l[|a|..|a| + |b|] == b && l[|a| + |b|..] == c
    ensures Some(HOST) in l ==> Some(HOST) in a || Some(HOST) in b || Some(HOST) in c
  {}

  /** A text that begins with a slash or a star. */
  lemma {:induction false} RelativeForm(buf: seq<byte>, hs: Span) returns (u: Url)
    requires Accepts(buf, false, hs) && (buf == [] || buf[0] == SLASH || buf[0] == STAR)
    ensures ShapedUrl(u) && u.Relative? && Render(u) == buf
  {
    hide Accepts, Outer, Alive, LegalTailParts, Render, Step, TailText, Final, HostAccepted, FoundAt, IsUrlChar;
    AcceptedHost(buf, false, hs);
    StartIsAlive(buf, false);
    if buf == [] {
      u := Relative(NoTail);
      RelativeText(NoTail);
      NoTailIsLegal();
    } else {
      AliveOn(SpacesBeforeUrl, buf);
      StartChars(buf[0]);
      var t := PathPart(buf[1..]);
      var whole := t.(path := [buf[0]] + t.path);
      RelativeText(whole);
      PathFirst(buf[0], t);
      FirstOfTail(buf[0], t);
      assert buf == [buf[0]] + buf[1..];
      u := Relative(whole);
    }
  }

  lemma NoTailIsLegal()
    ensures LegalTailParts(NoTail) && TailText(NoTail) == []
  {}

  lemma FirstOfTail(c: byte, t: Tail)
    ensures TailText(t.(path := [c] + t.path)) == [c] + TailText(t)
  {}

  lemma PathFirst(c: byte, t: Tail)
    requires LegalTailParts(t) && IsUrlChar(c)
    ensures LegalTailParts(t.(path := [c] + t.path))
  {}

  /** Everything accepted is the text of a legal URL. */
  lemma {:induction false} AcceptedIsRendered(buf: seq<byte>, isConnect: bool, hs: Span) returns (u: Url)
    requires Accepts(buf, isConnect, hs)
    ensures LegalUrl(u) && u.Connect? == isConnect && Render(u) == buf
  {
    hide Accepts, ShapedUrl, LegalUrl, Render;
    if isConnect {
      u := ConnectForm(buf, hs);
    } else if buf == [] || buf[0] == SLASH || buf[0] == STAR {
      u := RelativeForm(buf, hs);
    } else {
      u := AbsoluteForm(buf, hs);
    }
    LegalWhenAccepted(u, hs);
  }

  /** The parser accepts exactly the texts of legal URLs. */
  lemma {:induction false} AcceptedUrls(buf: seq<byte>, isConnect: bool)
    ensures (exists hs :: Accepts(buf, isConnect, hs)) <==> exists u :: LegalUrl(u) && u.Connect? == isConnect && Render(u) == buf
  {
    hide Accepts, LegalUrl, Render;
    if hs :| Accepts(buf, isConnect, hs) {
      var u := AcceptedIsRendered(buf, isConnect, hs);
    }
    if u :| LegalUrl(u) && u.Connect? == isConnect && Render(u) == buf {
      var hs := RenderedIsAccepted(u);
    }
  }
}
