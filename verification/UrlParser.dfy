/**
 `http_parser_parse_url`: one pass of the URL machine finds the fields, then one pass of the host machine
 splits the host field. Buffers hold at most 65535 characters, so that 16-bit offsets are exact.
 */
module UrlParser {
  import opened Common
  import opened UrlMachine

  type Labels = seq<Option<Uf>>

  /** What the caller gets. The source keeps the set of fields as a bit mask. */
  class HttpParserUrl {
    var fieldSet: set<Uf>
    var port: uint16
    var fieldData: map<Uf, Span>

    constructor ()
    {
      fieldSet, port, fieldData := {}, 0, map[];
    }
  }

  function StartState(isConnect: bool): State {
    if isConnect then ServerStart else SpacesBeforeUrl
  }

  /** The labels of the first pass. */
  function Outer(buf: seq<byte>, isConnect: bool): (l: Labels)
    ensures |l| == |buf|
  {
    var tr := Trace(Step, StartState(isConnect), buf);
    seq(|buf|, i requires 0 <= i < |buf| => Label(tr[i]))
  }

  /** `found_at`: some character led to the state after an at-sign. */
  predicate FoundAt(buf: seq<byte>, isConnect: bool) {
    ServerWithAt in Trace(Step, StartState(isConnect), buf)
  }

  function HostStartState(foundAt: bool): HostState {
    if foundAt then UserinfoStart else HostStart
  }

  /** The labels of the second pass, on the text of the host field. */
  function HostLabels(text: seq<byte>, foundAt: bool): (l: Labels)
    ensures |l| == |text|
  {
    var tr := Trace(HStep, HostStartState(foundAt), text);
    seq(|text|, i requires 0 <= i < |text| => HLabel(tr[i]))
  }

  predicate HostAccepted(text: seq<byte>, foundAt: bool) {
    HDead !in Trace(HStep, HostStartState(foundAt), text) && HostMayEnd(After(HStep, HostStartState(foundAt), text))
  }

  /** Labels in `outer`, those in the host span replaced by `host`, as far as position p; None from there on. */
  function Overlay(outer: Labels, host: Labels, off: nat, p: nat): (l: Labels)
    requires off + |host| <= |outer|
    ensures |l| == |outer|
  {
    seq(|outer|, i requires 0 <= i < |outer| =>
      if off <= i < off + |host| then (if i < p then host[i - off] else None) else outer[i])
  }

  /** The labels before position p; None from there on. */
  function Seen(l: Labels, p: nat): (r: Labels)
    ensures |r| == |l|
  {
    seq(|l|, i requires 0 <= i < |l| => if i < p then l[i] else None)
  }

  /** The text of a span. */
  function Slice(buf: seq<byte>, sp: Span): seq<byte>
    requires sp.off + sp.len <= |buf|
  {
    buf[sp.off..sp.off + sp.len]
  }

  /** The final labels, given the span of the host field if there is one. */
  function Final(buf: seq<byte>, isConnect: bool, hs: Span): (l: Labels)
    requires hs.off + hs.len <= |buf|
    ensures |l| == |buf|
  {
    var outer := Outer(buf, isConnect);
    if Some(HOST) in outer then
      Overlay(outer, HostLabels(Slice(buf, hs), FoundAt(buf, isConnect)), hs.off, |buf|)
    else outer
  }

  predicate AllDigits(text: seq<byte>) {
    forall i :: 0 <= i < |text| ==> IsNum(text[i])
  }

  /** The decimal value of a string of digits. */
  function PortValue(digits: seq<byte>): nat
    requires AllDigits(digits)
  {
    if digits == [] then 0
    else
      assert IsNum(digits[|digits| - 1]);
      PortValue(digits[..|digits| - 1]) * 10 + (digits[|digits| - 1] - 48) as nat
  }

  /** Both passes succeed; hs is the span of the host field of the first pass. */
  ghost predicate BothPasses(buf: seq<byte>, isConnect: bool, hs: Span) {
    var outer := Outer(buf, isConnect);
    && Dead !in Trace(Step, StartState(isConnect), buf)
    && (Some(SCHEMA) in outer ==> Some(HOST) in outer)
    && hs.off + hs.len <= |buf|
    && (Some(HOST) in outer ==> Marks(outer, HOST, hs) && HostAccepted(Slice(buf, hs), FoundAt(buf, isConnect)))
  }

  /** The conditions under which the parser answers 0. */
  ghost predicate Accepts(buf: seq<byte>, isConnect: bool, hs: Span) {
    && BothPasses(buf, isConnect, hs)
    && var final := Final(buf, isConnect, hs);
    && (isConnect ==> forall f :: Some(f) in final <==> f == HOST || f == PORT)
    && (forall sp :: Marks(final, PORT, sp) ==>
         AllDigits(Slice(buf, sp)) && PortValue(Slice(buf, sp)) <= 0xffff)
  }

  // ----- Growing a span

  lemma ExtendNew(labels: Labels, p: nat, f: Uf, fs: set<Uf>, data: map<Uf, Span>)
    requires Matches(labels, fs, data) && p < |labels| && labels[p] == None && f !in fs
    ensures Matches(labels[p := Some(f)], fs + {f}, data[f := Span(p, 1)])
  {
    var l, fs', d := labels[p := Some(f)], fs + {f}, data[f := Span(p, 1)];
    assert Marks(l, f, Span(p, 1)) by {
      assert Some(f) !in labels;
    }
    forall g | g in fs ensures Marks(l, g, d[g]) {
      assert Marks(labels, g, data[g]);
    }
    forall g | g !in fs' ensures Some(g) !in l {
      assert Some(g) !in labels;
    }
  }

  lemma ExtendSame(labels: Labels, p: nat, f: Uf, fs: set<Uf>, data: map<Uf, Span>)
    requires Matches(labels, fs, data) && p < |labels| && labels[p] == None
    requires f in fs && data[f].off + data[f].len == p
    ensures Matches(labels[p := Some(f)], fs, data[f := Span(data[f].off, data[f].len + 1)])
  {
    var l, d := labels[p := Some(f)], data[f := Span(data[f].off, data[f].len + 1)];
    assert Marks(l, f, d[f]) by {
      assert Marks(labels, f, data[f]);
    }
    forall g | g in fs && g != f ensures Marks(l, g, d[g]) {
      assert Marks(labels, g, data[g]);
    }
    forall g | g !in fs ensures Some(g) !in l {
      assert Some(g) !in labels;
    }
  }

  lemma NotAField(labels: Labels, fs: set<Uf>, data: map<Uf, Span>, f: Uf)
    requires Matches(labels, fs, data) && Some(f) !in labels
    ensures f !in fs
  {
    if f in fs { MarksHead(labels, f, data[f]); }
  }

  lemma MarksHead(labels: Labels, f: Uf, sp: Span)
    requires Marks(labels, f, sp)
    ensures Some(f) in labels && sp.len > 0 && sp.off + sp.len <= |labels|
  {
    assert labels[sp.off] == Some(f);
  }

  // ----- The first pass

  lemma RankIsLabel(s: State, t: State)
    requires Rank(s) == Rank(t)
    ensures Label(s) == Label(t)
  {}

  /** A field of the first pass has no gaps. */
  lemma OuterConvex(buf: seq<byte>, isConnect: bool, i: nat, j: nat, k: nat)
    requires i <= j <= k < |buf| && Outer(buf, isConnect)[i] == Outer(buf, isConnect)[k] != None
    ensures Outer(buf, isConnect)[j] == Outer(buf, isConnect)[i]
  {
    var s := StartState(isConnect);
    var tr := Trace(Step, s, buf);
    RanksSorted(s, buf, i, j);
    RanksSorted(s, buf, j, k);
    LabelIsRank(tr[i], tr[k]);
    RankIsLabel(tr[i], tr[j]);
  }

  lemma LabelIsRank(s: State, t: State)
    requires Label(s) == Label(t) != None
    ensures Rank(s) == Rank(t)
  {}

  /** The field last extended ends at the last labelled character. */
  ghost predicate LastField(labels: Labels, p: nat, oldUf: Option<Uf>, fs: set<Uf>, data: map<Uf, Span>) {
    match oldUf
    case None => fs == {}
    case Some(f) => f in fs && f in data && forall i :: 0 <= i < p && i < |labels| && labels[i] != None ==> i < data[f].off + data[f].len
  }

  /** One character of the first pass: what to do with its field. */
  lemma OuterStep(buf: seq<byte>, isConnect: bool, p: nat, oldUf: Option<Uf>, fs: set<Uf>, data: map<Uf, Span>)
    requires p < |buf|
    requires var outer := Outer(buf, isConnect);
      Matches(Seen(outer, p), fs, data) && LastField(outer, p, oldUf, fs, data)
    ensures var outer := Outer(buf, isConnect);
      match outer[p]
      case None => Matches(Seen(outer, p + 1), fs, data) && LastField(outer, p + 1, oldUf, fs, data)
      case Some(f) =>
        if oldUf == Some(f) then
          var data' := data[f := Span(data[f].off, data[f].len + 1)];
          Matches(Seen(outer, p + 1), fs, data') && LastField(outer, p + 1, oldUf, fs, data')
        else
          var data' := data[f := Span(p, 1)];
          Matches(Seen(outer, p + 1), fs + {f}, data') && LastField(outer, p + 1, Some(f), fs + {f}, data')
  {
    var outer := Outer(buf, isConnect);
    var seen := Seen(outer, p);
    if outer[p] == None {
      assert Seen(outer, p + 1) == seen;
    } else {
      var f := outer[p].value;
      assert Seen(outer, p + 1) == seen[p := Some(f)];
      if f in fs {
        var sp := data[f];
        assert Marks(seen, f, sp);
        assert seen[sp.off] == Some(f);
        forall j | sp.off <= j < p ensures outer[j] == Some(f) {
          OuterConvex(buf, isConnect, sp.off, j, p);
        }
        assert sp.off < p && outer[p - 1] == Some(f);
        assert seen[p - 1] == Some(f) && seen[p] == None;
        assert Inside(sp, p - 1) && !Inside(sp, p);
        assert sp.off + sp.len == p;
        var g := oldUf.value;
        assert Marks(seen, g, data[g]);
        assert p - 1 < data[g].off + data[g].len;
        assert seen[data[g].off + data[g].len - 1] == Some(g);
        assert f == g;
        ExtendSame(seen, p, f, fs, data);
      } else {
        ExtendNew(seen, p, f, fs, data);
      }
    }
  }

  // ----- The second pass

  lemma HRankIsLabel(s: HostState, t: HostState)
    ensures HRank(s) == HRank(t) ==> HLabel(s) == HLabel(t)
    ensures HLabel(s) == HLabel(t) != None ==> HRank(s) == HRank(t)
  {}

  /** A field entered from a state with another label has not occurred before. */
  lemma EnteredOnce(text: seq<byte>, foundAt: bool, k: nat, j: nat)
    requires j < k < |text|
    requires var l := HostLabels(text, foundAt); l[k] != None && l[k - 1] != l[k]
    ensures HostLabels(text, foundAt)[j] != HostLabels(text, foundAt)[k]
  {
    var s0 := HostStartState(foundAt);
    var tr := Trace(HStep, s0, text);
    HRanksSorted(s0, text, j, k - 1);
    HRanksSorted(s0, text, k - 1, k);
    HRankIsLabel(tr[j], tr[k]);
    HRankIsLabel(tr[k - 1], tr[k]);
  }

  /** Outside the host text, no label of the second pass occurs. */
  ghost predicate OnlyInside(outer: Labels, off: nat, len: nat) {
    forall i :: 0 <= i < |outer| && !(off <= i < off + len) ==>
      outer[i] != Some(HOST) && outer[i] != Some(PORT) && outer[i] != Some(USERINFO)
  }

  /** The fields found so far by the second pass: the host only once it has a character. */
  ghost function Found(fs: set<Uf>, data: map<Uf, Span>): set<Uf>
    requires HOST in data
  {
    if data[HOST].len > 0 then fs + {HOST} else fs - {HOST}
  }

  /** One character of the second pass, at position k of the host text. */
  lemma HostExtend(outer: Labels, text: seq<byte>, foundAt: bool, off: nat, k: nat, fs: set<Uf>, data: map<Uf, Span>)
    requires k < |text| && off + |text| <= |outer|
    requires Matches(Overlay(outer, HostLabels(text, foundAt), off, off + k), fs, data)
    requires OnlyInside(outer, off, |text|)
    ensures var l := HostLabels(text, foundAt);
      var now := Overlay(outer, l, off, off + k + 1);
      match l[k]
      case None => Matches(now, fs, data)
      case Some(f) =>
        if k > 0 && l[k - 1] == Some(f) then
          f in fs && f in data && Matches(now, fs, data[f := Span(data[f].off, data[f].len + 1)])
        else f !in fs && Matches(now, fs + {f}, data[f := Span(off + k, 1)])
  {
    var l := HostLabels(text, foundAt);
    var was, now := Overlay(outer, l, off, off + k), Overlay(outer, l, off, off + k + 1);
    var p := off + k;
    if l[k] == None {
      assert now == was;
    } else {
      var f := l[k].value;
      assert now == was[p := Some(f)];
      if k > 0 && l[k - 1] == Some(f) {
        assert was[p - 1] == Some(f) && was[p] == None;
        assert f in fs;
        assert Marks(was, f, data[f]);
        assert Inside(data[f], p - 1) && !Inside(data[f], p);
        ExtendSame(was, p, f, fs, data);
      } else {
        assert f == HOST || f == PORT || f == USERINFO;
        forall i | 0 <= i < |was| ensures was[i] != Some(f) {
          if off <= i < p {
            EnteredOnce(text, foundAt, k, i - off);
          }
        }
        NotAField(was, fs, data, f);
        ExtendNew(was, p, f, fs, data);
      }
    }
  }

  /** Is new_s a continuation of the field of s, as the switch of the second pass decides? */
  predicate Continues(s: HostState, new_s: HostState) {
    s == new_s || new_s == ZoneStart || new_s == Zone
  }

  /** A span as the two 16-bit fields keep it. */
  function Stored(off: nat, len: nat): (sp: Span)
    ensures off <= 0xffff && len <= 0xffff ==> sp == Span(off, len)
  {
    Span(off % 0x1_0000, len % 0x1_0000)
  }

  /** In a buffer of at most 65535 characters the spans of the labels are stored as they are. */
  lemma SpanFits(labels: Labels, fs: set<Uf>, data: map<Uf, Span>, f: Uf)
    requires Matches(labels, fs, data) && f in fs && |labels| <= 0xffff
    ensures f in data && data[f].off <= 0xffff && data[f].len <= 0xffff
  {}

  /** The switch of the second pass: enter or continue the field of the new state. */
  method HostField(u: HttpParserUrl, s: HostState, new_s: HostState, p: nat)
    requires HOST in u.fieldSet && HOST in u.fieldData
    requires HLabel(new_s).Some? ==>
      var f := HLabel(new_s).value;
      if Continues(s, new_s) then f in u.fieldData && f in u.fieldSet else f == HOST ==> u.fieldData[HOST].len == 0
    modifies u`fieldSet, u`fieldData
    ensures HLabel(new_s) == None ==> u.fieldSet == old(u.fieldSet) && u.fieldData == old(u.fieldData)
    ensures HLabel(new_s).Some? ==>
      var f, was := HLabel(new_s).value, old(u.fieldData);
      && u.fieldSet == old(u.fieldSet) + {f}
      && u.fieldData == was[f := if Continues(s, new_s) then Stored(was[f].off, was[f].len + 1) else Stored(p, 1)]
  {
    match new_s {
      case Host =>
        var at := if s != Host then p else u.fieldData[HOST].off;
        u.fieldData := u.fieldData[HOST := Stored(at, u.fieldData[HOST].len + 1)];
      case V6 =>
        var at := if s != V6 then p else u.fieldData[HOST].off;
        u.fieldData := u.fieldData[HOST := Stored(at, u.fieldData[HOST].len + 1)];
      case ZoneStart =>
        u.fieldData := u.fieldData[HOST := Stored(u.fieldData[HOST].off, u.fieldData[HOST].len + 1)];
      case Zone =>
        u.fieldData := u.fieldData[HOST := Stored(u.fieldData[HOST].off, u.fieldData[HOST].len + 1)];
      case Port =>
        if s != Port {
          u.fieldData := u.fieldData[PORT := Stored(p, 0)];
          u.fieldSet := u.fieldSet + {PORT};
        }
        u.fieldData := u.fieldData[PORT := Stored(u.fieldData[PORT].off, u.fieldData[PORT].len + 1)];
      case Userinfo =>
        if s != Userinfo {
          u.fieldData := u.fieldData[USERINFO := Stored(p, 0)];
          u.fieldSet := u.fieldSet + {USERINFO};
        }
        u.fieldData := u.fieldData[USERINFO := Stored(u.fieldData[USERINFO].off, u.fieldData[USERINFO].len + 1)];
      case _ =>
    }
  }

  /** `http_parse_host`. On success the userinfo, host and port fields are those of the host labels. */
  method ParseHost(buf: seq<byte>, u: HttpParserUrl, foundAt: bool, ghost outer: Labels) returns (r: int)
    requires |outer| == |buf| <= 0xffff && Matches(outer, u.fieldSet, u.fieldData)
    requires HOST in u.fieldSet && PORT !in u.fieldSet && USERINFO !in u.fieldSet && HOST in u.fieldData
    requires u.fieldData[HOST].off + u.fieldData[HOST].len <= |buf|
    modifies u`fieldSet, u`fieldData
    ensures r == 0 || r == 1
    ensures var hs := old(u.fieldData[HOST]);
      && (r == 0 <==> HostAccepted(Slice(buf, hs), foundAt))
      && (r == 0 ==> Matches(Overlay(outer, HostLabels(Slice(buf, hs), foundAt), hs.off, |buf|), u.fieldSet, u.fieldData))
  {
    hide Matches, HostLabels, Overlay, HLabel, HStep, HRank, OnlyInside, Trace, Continues, Stored, HostInv, HostAccepted, HostMayEnd;
    var off, end := u.fieldData[HOST].off, u.fieldData[HOST].off + u.fieldData[HOST].len;
    ghost var text := buf[off..end];
    HostPassBegins(outer, text, foundAt, off, u.fieldSet, u.fieldData);
    u.fieldData := u.fieldData[HOST := Stored(off, 0)];
    var s := HostStartState(foundAt);
    for p := off to end
      invariant HostInv(outer, text, foundAt, off, p - off, s, u.fieldSet, u.fieldData)
    {
      var new_s := HStep(s, buf[p]);
      assert buf[p] == text[p - off];
      if new_s == HDead {
        HostDies(outer, text, foundAt, off, p - off, s, u.fieldSet, u.fieldData);
        return 1;
      }
      ghost var fs, data := u.fieldSet, u.fieldData;
      HostReady(outer, text, foundAt, off, p - off, s, fs, data);
      HostField(u, s, new_s, p);
      HostTurn(outer, text, foundAt, off, p - off, s, fs, data, u.fieldSet, u.fieldData);
      s := new_s;
    }
    HostEnds(outer, text, foundAt, off, s, u.fieldSet, u.fieldData);
    match s {
      case Host => r := 0;
      case V6End => r := 0;
      case Port => r := 0;
      case _ => r := 1;
    }
    EndStates(s);
  }

  lemma EndStates(s: HostState)
    ensures HostMayEnd(s) <==> s == HostState.Host || s == V6End || s == Port
  {}

  /** What holds when the second pass has read k characters of the host text. */
  ghost predicate HostInv(outer: Labels, text: seq<byte>, at: bool, off: nat, k: nat, s: HostState, fs: set<Uf>, data: map<Uf, Span>) {
    var tr := Trace(HStep, HostStartState(at), text);
    && k <= |text| && off + |text| <= |outer| <= 0xffff && OnlyInside(outer, off, |text|)
    && HOST in fs && HOST in data
    && s == (if k == 0 then HostStartState(at) else tr[k - 1])
    && s != HDead && (forall i :: 0 <= i < k ==> tr[i] != HDead)
    && Matches(Overlay(outer, HostLabels(text, at), off, off + k), Found(fs, data), data)
    && (HRank(s) >= 4 ==> data[HOST].len > 0)
  }

  lemma {:induction false} HostPassBegins(outer: Labels, text: seq<byte>, at: bool, off: nat, fs: set<Uf>, data: map<Uf, Span>)
    requires Matches(outer, fs, data) && HOST in fs && HOST in data && data[HOST] == Span(off, |text|)
    requires PORT !in fs && USERINFO !in fs && |outer| <= 0xffff
    ensures HostInv(outer, text, at, off, 0, HostStartState(at), fs, data[HOST := Stored(off, 0)])
  {
    hide Matches, HostLabels, Overlay, HStep, HRank, OnlyInside, Trace, Stored;
    HostPassStarts(outer, text, at, off, fs, data);
    RankOfStart();
  }

  lemma {:induction false} HostDies(outer: Labels, text: seq<byte>, at: bool, off: nat, k: nat, s: HostState, fs: set<Uf>, data: map<Uf, Span>)
    requires HostInv(outer, text, at, off, k, s, fs, data) && k < |text| && HStep(s, text[k]) == HDead
    ensures !HostAccepted(text, at)
  {
    hide Matches, HostLabels, Overlay, HStep, HRank, OnlyInside, Trace, HostMayEnd;
    TraceAt(HStep, HostStartState(at), text, k);
    assert Trace(HStep, HostStartState(at), text)[k] == HDead;
  }

  /** What the next character needs of the fields. */
  lemma {:induction false} HostReady(outer: Labels, text: seq<byte>, at: bool, off: nat, k: nat, s: HostState, fs: set<Uf>, data: map<Uf, Span>)
    requires HostInv(outer, text, at, off, k, s, fs, data) && k < |text| && HStep(s, text[k]) != HDead
    ensures HOST in fs && HOST in data
    ensures var t := HStep(s, text[k]);
      HLabel(t).Some? ==>
        var f := HLabel(t).value;
        if Continues(s, t) then f in data && f in fs else f == HOST ==> data[HOST].len == 0
  {
    hide Matches, HostLabels, Overlay, HLabel, HStep, HRank, OnlyInside, Trace, Continues;
    var t := HStep(s, text[k]);
    TraceAt(HStep, HostStartState(at), text, k);
    HostExtend(outer, text, at, off, k, Found(fs, data), data);
    HostCases(text, at, k, s, t);
  }

  /** One character of the second pass. */
  lemma {:induction false} HostTurn(outer: Labels, text: seq<byte>, at: bool, off: nat, k: nat, s: HostState,
      fs: set<Uf>, data: map<Uf, Span>, fs': set<Uf>, data': map<Uf, Span>)
    requires HostInv(outer, text, at, off, k, s, fs, data) && k < |text| && HStep(s, text[k]) != HDead
    requires var t := HStep(s, text[k]);
      if HLabel(t) == None then fs' == fs && data' == data
      else
        var f := HLabel(t).value;
        && fs' == fs + {f} && (Continues(s, t) ==> f in data)
        && data' == data[f := if Continues(s, t) then Stored(data[f].off, data[f].len + 1) else Stored(off + k, 1)]
    ensures HostInv(outer, text, at, off, k + 1, HStep(s, text[k]), fs', data')
  {
    hide Matches, HostLabels, Overlay, HLabel, HStep, HRank, OnlyInside, Trace, Continues, Stored, Found;
    var t, found := HStep(s, text[k]), Found(fs, data);
    TraceAt(HStep, HostStartState(at), text, k);
    HostExtend(outer, text, at, off, k, found, data);
    HostCases(text, at, k, s, t);
    if HLabel(t).Some? {
      NextSpan(outer, text, at, off, k, found, data);
      FoundAfter(fs, data, HLabel(t).value, data'[HLabel(t).value], Continues(s, t));
    }
  }

  /** The fields found, when one more character belongs to f. */
  lemma FoundAfter(fs: set<Uf>, data: map<Uf, Span>, f: Uf, sp: Span, continued: bool)
    requires HOST in fs && HOST in data && sp.len > 0
    requires continued ==> f in Found(fs, data)
    ensures Found(fs + {f}, data[f := sp]) == if continued then Found(fs, data) else Found(fs, data) + {f}
  {}

  /** At the end of the text the answer is whether the state may end, and the host has a character. */
  lemma {:induction false} HostEnds(outer: Labels, text: seq<byte>, at: bool, off: nat, s: HostState, fs: set<Uf>, data: map<Uf, Span>)
    requires HostInv(outer, text, at, off, |text|, s, fs, data)
    ensures HostAccepted(text, at) <==> HostMayEnd(s)
    ensures HostMayEnd(s) ==> Matches(Overlay(outer, HostLabels(text, at), off, |outer|), fs, data)
  {
    hide Matches, HostLabels, Overlay, HStep, HRank, OnlyInside, HostMayEnd;
    OverlayAll(outer, HostLabels(text, at), off, |outer|);
    RankOfEnd(s);
    assert HostMayEnd(s) ==> Found(fs, data) == fs;
  }

  /** The span that the next character of a field enters or continues is stored as it is. */
  lemma NextSpan(outer: Labels, text: seq<byte>, foundAt: bool, off: nat, k: nat, fs: set<Uf>, data: map<Uf, Span>)
    requires k < |text| && off + |text| <= |outer| <= 0xffff
    requires Matches(Overlay(outer, HostLabels(text, foundAt), off, off + k), fs, data)
    requires OnlyInside(outer, off, |text|) && HostLabels(text, foundAt)[k].Some?
    ensures var l := HostLabels(text, foundAt);
      var f := l[k].value;
      if k > 0 && l[k - 1] == Some(f) then
        f in data && Stored(data[f].off, data[f].len + 1) == Span(data[f].off, data[f].len + 1)
      else Stored(off + k, 1) == Span(off + k, 1)
  {
    hide Matches, HostLabels, Overlay, OnlyInside, Stored;
    var l := HostLabels(text, foundAt);
    var f := l[k].value;
    HostExtend(outer, text, foundAt, off, k, fs, data);
    if k > 0 && l[k - 1] == Some(f) {
      SpanFits(Overlay(outer, l, off, off + k + 1), fs, data[f := Span(data[f].off, data[f].len + 1)], f);
    }
  }

  lemma RankOfStart()
    ensures HRank(HostStart) < 4 && HRank(UserinfoStart) < 4
  {}

  lemma RankOfEnd(s: HostState)
    ensures HostMayEnd(s) ==> HRank(s) >= 4
  {}

  /** Before the second pass, the host field of the first pass is forgotten. */
  lemma HostPassStarts(outer: Labels, text: seq<byte>, foundAt: bool, off: nat, fs: set<Uf>, data: map<Uf, Span>)
    requires Matches(outer, fs, data) && HOST in fs && HOST in data && data[HOST] == Span(off, |text|)
    requires PORT !in fs && USERINFO !in fs
    ensures OnlyInside(outer, off, |text|)
    ensures off + |text| <= |outer|
    ensures Matches(Overlay(outer, HostLabels(text, foundAt), off, off), fs - {HOST}, data[HOST := Span(off, 0)])
  {
    var now, d := Overlay(outer, HostLabels(text, foundAt), off, off), data[HOST := Span(off, 0)];
    assert Marks(outer, HOST, data[HOST]);
    forall f | f in fs - {HOST} ensures Marks(now, f, d[f]) {
      assert Marks(outer, f, data[f]);
      forall i | 0 <= i < |now| ensures now[i] == Some(f) <==> outer[i] == Some(f) {
        assert outer[i] == Some(HOST) <==> Inside(data[HOST], i);
      }
    }
    forall f | f !in fs - {HOST} ensures Some(f) !in now {
      forall i | 0 <= i < |now| ensures now[i] != Some(f) {
        assert outer[i] == Some(HOST) <==> Inside(data[HOST], i);
        assert f != HOST ==> Some(f) !in outer;
      }
    }
  }

  /** How the states of the second pass say whether a field is entered or continued. */
  lemma HostCases(text: seq<byte>, foundAt: bool, k: nat, s: HostState, t: HostState)
    requires k < |text| && t == HStep(s, text[k]) && t != HDead
    requires s == if k == 0 then HostStartState(foundAt) else Trace(HStep, HostStartState(foundAt), text)[k - 1]
    requires t == Trace(HStep, HostStartState(foundAt), text)[k]
    ensures var l := HostLabels(text, foundAt);
      var continued := k > 0 && l[k - 1] == l[k];
      && l[k] == HLabel(t)
      && (HLabel(t).Some? ==> (continued <==> Continues(s, t)))
    ensures HLabel(t) in {None, Some(HOST), Some(PORT), Some(USERINFO)}
    ensures HRank(t) >= 4 ==> HLabel(t) == Some(HOST) || HRank(s) >= 4
  {
    hide HStep, HLabel, HRank, Trace, Continues;
    StepCases(s, text[k]);
  }

  lemma StepCases(s: HostState, c: byte)
    requires HStep(s, c) != HDead
    ensures var t := HStep(s, c);
      && (HLabel(t).Some? ==> (HLabel(s) == HLabel(t) <==> Continues(s, t)))
      && HLabel(t) in {None, Some(HOST), Some(PORT), Some(USERINFO)}
      && (HRank(t) >= 4 ==> HLabel(t) == Some(HOST) || HRank(s) >= 4)
    ensures HLabel(UserinfoStart) == None && HLabel(HostStart) == None
  {}

  lemma OverlayAll(outer: Labels, host: Labels, off: nat, p: nat)
    requires off + |host| <= p == |outer|
    ensures Overlay(outer, host, off, off + |host|) == Overlay(outer, host, off, p)
  {}

  // ----- The whole parser

  /** `strtoul` with base 10 on the text from `off` on; a NUL stands after the buffer. */
  method StrToUl(buf: seq<byte>, off: nat) returns (v: nat, ghost n: nat)
    requires off <= |buf|
    ensures off + n <= |buf| && AllDigits(buf[off..off + n]) && v == PortValue(buf[off..off + n])
    ensures off + n < |buf| ==> !IsNum(buf[off + n])
  {
    var p := off;
    v := 0;
    while p < |buf| && IsNum(buf[p])
      invariant off <= p <= |buf| && AllDigits(buf[off..p]) && v == PortValue(buf[off..p])
    {
      NextDigit(buf[off..p], buf[p], buf[off..p + 1]);
      v := v * 10 + (buf[p] - 48) as nat;
      p := p + 1;
    }
    n := p - off;
  }

  lemma NextDigit(s: seq<byte>, c: byte, t: seq<byte>)
    requires AllDigits(s) && IsNum(c) && t == s + [c]
    ensures AllDigits(t) && PortValue(t) == PortValue(s) * 10 + (c - 48) as nat
  {
    assert t[..|t| - 1] == s;
  }

  lemma StepToPort(s: HostState, c: byte)
    ensures HStep(s, c) == Port ==> IsNum(c)
    ensures s == Port && IsNum(c) ==> HStep(s, c) == Port
    ensures HLabel(s) == Some(PORT) <==> s == Port
  {}

  lemma PortIsDigit(text: seq<byte>, at: bool, k: nat)
    requires k < |text| && HostLabels(text, at)[k] == Some(PORT)
    ensures IsNum(text[k])
    ensures k + 1 < |text| && HostLabels(text, at)[k + 1] != Some(PORT) ==> !IsNum(text[k + 1])
  {
    hide HStep, HLabel, IsNum, Trace;
    var tr := Trace(HStep, HostStartState(at), text);
    TraceAt(HStep, HostStartState(at), text, k);
    StepToPort(tr[k], text[k]);
    StepToPort(if k == 0 then HostStartState(at) else tr[k - 1], text[k]);
    if k + 1 < |text| {
      TraceAt(HStep, HostStartState(at), text, k + 1);
      StepToPort(tr[k], text[k + 1]);
      StepToPort(tr[k + 1], text[k + 1]);
    }
  }

  /** The character after the host field of the first pass is not a digit. */
  lemma HostEndsBeforeNonDigit(buf: seq<byte>, isConnect: bool, hs: Span)
    requires Marks(Outer(buf, isConnect), HOST, hs) && hs.off + hs.len < |buf|
    ensures !IsNum(buf[hs.off + hs.len])
  {
    var tr, e := Trace(Step, StartState(isConnect), buf), hs.off + hs.len;
    TraceAt(Step, StartState(isConnect), buf, e);
    assert Inside(hs, e - 1) && !Inside(hs, e);
    assert Label(tr[e - 1]) == Some(HOST) && Label(tr[e]) != Some(HOST);
  }

  /** A port field is digits, and the character after it is not one. */
  lemma PortEnds(buf: seq<byte>, isConnect: bool, hs: Span, sp: Span)
    requires BothPasses(buf, isConnect, hs) && Marks(Final(buf, isConnect, hs), PORT, sp)
    ensures AllDigits(Slice(buf, sp))
    ensures sp.off + sp.len < |buf| ==> !IsNum(buf[sp.off + sp.len])
  {
    hide BothPasses, Final, Marks, IsNum;
    FinalLength(buf, isConnect, hs);
    MarksHead(Final(buf, isConnect, hs), PORT, sp);
    forall i | sp.off <= i < sp.off + sp.len ensures IsNum(buf[i]) {
      MarkedAt(Final(buf, isConnect, hs), PORT, sp, i);
      PortInHost(buf, isConnect, hs, i);
    }
    var e := sp.off + sp.len;
    if e < |buf| {
      MarkedAt(Final(buf, isConnect, hs), PORT, sp, e - 1);
      MarkedAt(Final(buf, isConnect, hs), PORT, sp, e);
      PortInHost(buf, isConnect, hs, e - 1);
      if e < hs.off + hs.len {
        PortGoesOn(buf, isConnect, hs, e);
      } else {
        HostEndsBeforeNonDigit(buf, isConnect, hs);
      }
    }
  }

  lemma FinalLength(buf: seq<byte>, isConnect: bool, hs: Span)
    requires BothPasses(buf, isConnect, hs)
    ensures hs.off + hs.len <= |buf| && |Final(buf, isConnect, hs)| == |buf|
  {}

  lemma MarkedAt(l: Labels, f: Uf, sp: Span, i: nat)
    requires Marks(l, f, sp) && i < |l|
    ensures l[i] == Some(f) <==> Inside(sp, i)
  {}

  /** A character of the port is a digit of the host text. */
  lemma PortInHost(buf: seq<byte>, isConnect: bool, hs: Span, i: nat)
    requires BothPasses(buf, isConnect, hs) && i < |buf| && Final(buf, isConnect, hs)[i] == Some(PORT)
    ensures Marks(Outer(buf, isConnect), HOST, hs) && hs.off <= i < hs.off + hs.len
    ensures HostLabels(Slice(buf, hs), FoundAt(buf, isConnect))[i - hs.off] == Some(PORT) && IsNum(buf[i])
  {
    hide Outer, HostLabels, HostAccepted, IsNum, FoundAt;
    NoPortOutside(buf, isConnect);
    assert Outer(buf, isConnect)[i] != Some(PORT);
    PortIsDigit(Slice(buf, hs), FoundAt(buf, isConnect), i - hs.off);
  }

  /** Behind a character of the port, the host text goes on with it, or with no digit. */
  lemma PortGoesOn(buf: seq<byte>, isConnect: bool, hs: Span, e: nat)
    requires BothPasses(buf, isConnect, hs) && 0 < e < hs.off + hs.len && e < |buf|
    requires Final(buf, isConnect, hs)[e - 1] == Some(PORT) && Final(buf, isConnect, hs)[e] != Some(PORT)
    ensures !IsNum(buf[e])
  {
    hide BothPasses, Final, Marks, Outer, HostLabels, HostAccepted, IsNum, FoundAt;
    PortInHost(buf, isConnect, hs, e - 1);
    InsideHost(buf, isConnect, hs, e);
    PortIsDigit(Slice(buf, hs), FoundAt(buf, isConnect), e - 1 - hs.off);
  }

  lemma InsideHost(buf: seq<byte>, isConnect: bool, hs: Span, i: nat)
    requires BothPasses(buf, isConnect, hs) && Marks(Outer(buf, isConnect), HOST, hs) && Inside(hs, i)
    ensures hs.off + hs.len <= |buf| && Slice(buf, hs)[i - hs.off] == buf[i]
    ensures Final(buf, isConnect, hs)[i] == HostLabels(Slice(buf, hs), FoundAt(buf, isConnect))[i - hs.off]
  {
    hide Outer, HostLabels, HostAccepted, FoundAt, Marks;
    MarksHead(Outer(buf, isConnect), HOST, hs);
  }

  lemma NoPortOutside(buf: seq<byte>, isConnect: bool)
    ensures Some(PORT) !in Outer(buf, isConnect) && Some(USERINFO) !in Outer(buf, isConnect)
  {}

  /** The first pass. `dead` says that it met a character it could not use. */
  method FirstPass(buf: seq<byte>, isConnect: bool, u: HttpParserUrl) returns (dead: bool, foundAt: bool)
    requires u.fieldSet == {} && |buf| <= 0xffff
    modifies u`fieldSet, u`fieldData
    ensures dead <==> Dead in Trace(Step, StartState(isConnect), buf)
    ensures !dead ==> foundAt == FoundAt(buf, isConnect)
    ensures !dead ==> Matches(Outer(buf, isConnect), u.fieldSet, u.fieldData)
  {
    hide Trace, Step, Matches, LastField, Stored, Outer, Seen, FirstInv, Label, FoundAt;
    var s := StartState(isConnect);
    var oldUf: Option<Uf> := None;
    foundAt := false;
    FirstPassBegins(buf, isConnect, u.fieldData);
    for p := 0 to |buf|
      invariant FirstInv(buf, isConnect, p, s, oldUf, foundAt, u.fieldSet, u.fieldData)
    {
      ghost var before := s;
      s := Step(s, buf[p]);
      if s == Dead {
        FirstPassDies(buf, isConnect, p, before, oldUf, foundAt, u.fieldSet, u.fieldData);
        return true, foundAt;
      }
      FirstTurn(buf, isConnect, p, before, oldUf, foundAt, u.fieldSet, u.fieldData);
      if s == ServerWithAt {
        foundAt := true;
      }
      match Label(s) {
        case None =>
        case Some(uf) =>
          if oldUf == Some(uf) {
            u.fieldData := u.fieldData[uf := Stored(u.fieldData[uf].off, u.fieldData[uf].len + 1)];
          } else {
            u.fieldData := u.fieldData[uf := Stored(p, 1)];
            u.fieldSet := u.fieldSet + {uf};
            oldUf := Some(uf);
          }
      }
    }
    FirstPassEnds(buf, isConnect, s, oldUf, foundAt, u.fieldSet, u.fieldData);
    dead := false;
  }

  /** What holds when the first pass has read p characters. */
  ghost predicate FirstInv(buf: seq<byte>, isConnect: bool, p: nat, s: State, oldUf: Option<Uf>, foundAt: bool,
      fs: set<Uf>, data: map<Uf, Span>)
  {
    var tr := Trace(Step, StartState(isConnect), buf);
    && p <= |buf| <= 0xffff
    && s == (if p == 0 then StartState(isConnect) else tr[p - 1])
    && (forall i :: 0 <= i < p ==> tr[i] != Dead)
    && (foundAt <==> exists i :: 0 <= i < p && tr[i] == ServerWithAt)
    && Matches(Seen(Outer(buf, isConnect), p), fs, data)
    && LastField(Outer(buf, isConnect), p, oldUf, fs, data)
    && (oldUf.Some? ==> oldUf.value in fs && oldUf.value in data)
  }

  lemma FirstPassBegins(buf: seq<byte>, isConnect: bool, data: map<Uf, Span>)
    requires |buf| <= 0xffff
    ensures FirstInv(buf, isConnect, 0, StartState(isConnect), None, false, {}, data)
  {
    hide Matches, LastField, Outer, Seen, Trace, Step;
    NothingSeen(Outer(buf, isConnect), data);
  }

  lemma {:induction false} FirstPassDies(buf: seq<byte>, isConnect: bool, p: nat, s: State, oldUf: Option<Uf>, foundAt: bool,
      fs: set<Uf>, data: map<Uf, Span>)
    requires FirstInv(buf, isConnect, p, s, oldUf, foundAt, fs, data) && p < |buf| && Step(s, buf[p]) == Dead
    ensures Dead in Trace(Step, StartState(isConnect), buf)
  {
    hide Matches, LastField, Outer, Seen, Trace, Step;
    TraceAt(Step, StartState(isConnect), buf, p);
    assert Trace(Step, StartState(isConnect), buf)[p] == Dead;
  }

  /** One character of the first pass. */
  lemma {:induction false} FirstTurn(buf: seq<byte>, isConnect: bool, p: nat, s: State, oldUf: Option<Uf>, foundAt: bool,
      fs: set<Uf>, data: map<Uf, Span>)
    requires FirstInv(buf, isConnect, p, s, oldUf, foundAt, fs, data) && p < |buf| && Step(s, buf[p]) != Dead
    ensures var t := Step(s, buf[p]);
      var found := foundAt || t == ServerWithAt;
      match Label(t)
      case None => FirstInv(buf, isConnect, p + 1, t, oldUf, found, fs, data)
      case Some(f) =>
        if oldUf == Some(f) then
          f in data && FirstInv(buf, isConnect, p + 1, t, oldUf, found, fs, data[f := Stored(data[f].off, data[f].len + 1)])
          && fs == fs + {f}
        else FirstInv(buf, isConnect, p + 1, t, Some(f), found, fs + {f}, data[f := Stored(p, 1)])
  {
    hide Matches, LastField, Seen, Trace, Step, Label, Stored;
    TraceAt(Step, StartState(isConnect), buf, p);
    OuterStep(buf, isConnect, p, oldUf, fs, data);
    var t := Step(s, buf[p]);
    assert Outer(buf, isConnect)[p] == Label(t);
    if Label(t).Some? && oldUf == Label(t) {
      var f := Label(t).value;
      SpanFits(Seen(Outer(buf, isConnect), p + 1), fs, data[f := Span(data[f].off, data[f].len + 1)], f);
    }
  }

  lemma {:induction false} FirstPassEnds(buf: seq<byte>, isConnect: bool, s: State, oldUf: Option<Uf>, foundAt: bool,
      fs: set<Uf>, data: map<Uf, Span>)
    requires FirstInv(buf, isConnect, |buf|, s, oldUf, foundAt, fs, data)
    ensures Dead !in Trace(Step, StartState(isConnect), buf)
    ensures foundAt == FoundAt(buf, isConnect) && Matches(Outer(buf, isConnect), fs, data)
  {
    hide Matches, LastField, Outer, Trace, Step;
    assert Seen(Outer(buf, isConnect), |buf|) == Outer(buf, isConnect);
  }

  lemma NothingSeen(outer: Labels, data: map<Uf, Span>)
    ensures Matches(Seen(outer, 0), {}, data) && LastField(outer, 0, None, {}, data)
  {}

  /** The end of the parser: the CONNECT restriction and the port number. */
  method Conclude(buf: seq<byte>, isConnect: bool, u: HttpParserUrl, ghost hs: Span) returns (r: int)
    requires BothPasses(buf, isConnect, hs) && hs.off + hs.len <= |buf| && u.port == 0
    requires Matches(Final(buf, isConnect, hs), u.fieldSet, u.fieldData)
    modifies u`port
    ensures r == 0 || r == 1
    ensures r == 0 <==> Accepts(buf, isConnect, hs)
    ensures r == 0 && PORT in u.fieldSet ==> AllDigits(Slice(buf, u.fieldData[PORT])) && u.port == PortValue(Slice(buf, u.fieldData[PORT]))
    ensures r == 0 && PORT !in u.fieldSet ==> u.port == 0
  {
    hide BothPasses, Final, Matches, PortValue, Marks, AllDigits, Accepts;
    ghost var sp := ConcludeMeaning(buf, isConnect, hs, u.fieldSet, u.fieldData);
    if isConnect && u.fieldSet != {HOST, PORT} {
      return 1;
    }
    if PORT in u.fieldSet {
      PortEnds(buf, isConnect, hs, sp);
      var v, n := StrToUl(buf, u.fieldData[PORT].off);
      SameDigits(buf, sp, n);
      if v > 0xffff {
        return 1;
      }
      u.port := v;
    }
    return 0;
  }

  /** Acceptance in terms of the fields that have been set. */
  lemma {:induction false} ConcludeMeaning(buf: seq<byte>, isConnect: bool, hs: Span, fs: set<Uf>, data: map<Uf, Span>) returns (sp: Span)
    requires BothPasses(buf, isConnect, hs) && hs.off + hs.len <= |buf| && Matches(Final(buf, isConnect, hs), fs, data)
    ensures sp.off + sp.len <= |buf|
    ensures PORT in fs ==> PORT in data && sp == data[PORT] && Marks(Final(buf, isConnect, hs), PORT, sp)
    ensures Accepts(buf, isConnect, hs) <==>
      && (isConnect ==> fs == {HOST, PORT})
      && (PORT in fs ==> AllDigits(Slice(buf, sp)) && PortValue(Slice(buf, sp)) <= 0xffff)
  {
    hide BothPasses, Final, Matches, PortValue, AllDigits;
    var final := Final(buf, isConnect, hs);
    FieldsOf(final, fs, data);
    OnlyPort(final, fs, data);
    sp := if PORT in fs then data[PORT] else Span(0, 0);
    hide Marks;
    assert fs == {HOST, PORT} <==> forall f :: f in fs <==> f == HOST || f == PORT;
  }

  /**
   `http_parser_parse_url`: 0 exactly on the accepted texts; then the fields are those of the final
   labels, and the port is the number in the port field. The ghost result is the host field of the
   first pass.
   */
  method ParseUrl(buf: seq<byte>, isConnect: bool, u: HttpParserUrl) returns (r: int, ghost hs: Span)
    requires |buf| <= 0xffff
    modifies u
    ensures r == 0 || r == 1
    ensures r == 0 ==> Accepts(buf, isConnect, hs)
    ensures r == 1 ==> forall h :: !Accepts(buf, isConnect, h)
    ensures r == 0 ==> Matches(Final(buf, isConnect, hs), u.fieldSet, u.fieldData)
    ensures r == 0 && PORT in u.fieldSet ==> AllDigits(Slice(buf, u.fieldData[PORT])) && u.port == PortValue(Slice(buf, u.fieldData[PORT]))
    ensures r == 0 && PORT !in u.fieldSet ==> u.port == 0
  {
    hide Accepts, Matches, Outer, HostAccepted, FoundAt, Overlay, HostLabels, PortValue;
    u.port, u.fieldSet := 0, {};
    hs := Span(0, 0);
    var dead, foundAt := FirstPass(buf, isConnect, u);
    ghost var outer := Outer(buf, isConnect);
    if dead {
      DeadIsRefused(buf, isConnect);
      return 1, hs;
    }
    FieldsOf(outer, u.fieldSet, u.fieldData);
    NoPortOutside(buf, isConnect);
    if SCHEMA in u.fieldSet && HOST !in u.fieldSet {
      OneAnswer(buf, isConnect, hs);
      return 1, hs;
    }
    if HOST in u.fieldSet {
      hs := u.fieldData[HOST];
      OneAnswer(buf, isConnect, hs);
      var h := ParseHost(buf, u, foundAt, outer);
      if h != 0 {
        return 1, hs;
      }
    }
    OneAnswer(buf, isConnect, hs);
    assert BothPasses(buf, isConnect, hs);
    r := Conclude(buf, isConnect, u, hs);
  }

  lemma DeadIsRefused(buf: seq<byte>, isConnect: bool)
    requires Dead in Trace(Step, StartState(isConnect), buf)
    ensures forall h :: !Accepts(buf, isConnect, h)
  {}

  /** The host field of the first pass is the only span worth trying. */
  lemma {:induction false} OneAnswer(buf: seq<byte>, isConnect: bool, hs: Span)
    requires hs.off + hs.len <= |buf|
    requires Some(HOST) in Outer(buf, isConnect) ==> Marks(Outer(buf, isConnect), HOST, hs)
    ensures forall h :: Accepts(buf, isConnect, h) ==> Accepts(buf, isConnect, hs)
    ensures Accepts(buf, isConnect, hs) <==>
      && BothPasses(buf, isConnect, hs)
      && (isConnect ==> forall f :: Some(f) in Final(buf, isConnect, hs) <==> f == HOST || f == PORT)
      && (forall sp :: Marks(Final(buf, isConnect, hs), PORT, sp) ==>
           AllDigits(Slice(buf, sp)) && PortValue(Slice(buf, sp)) <= 0xffff)
  {
    forall h | Accepts(buf, isConnect, h) ensures Accepts(buf, isConnect, hs) {
      if Some(HOST) in Outer(buf, isConnect) {
        SameSpan(Outer(buf, isConnect), HOST, h, hs);
      }
      assert Final(buf, isConnect, h) == Final(buf, isConnect, hs);
    }
  }

  lemma SameSpan(labels: Labels, f: Uf, a: Span, b: Span)
    requires Marks(labels, f, a) && Marks(labels, f, b)
    ensures a == b
  {
    assert labels[a.off] == Some(f) && labels[a.off + a.len - 1] == Some(f);
    assert labels[b.off] == Some(f) && labels[b.off + b.len - 1] == Some(f);
  }

  lemma DigitsAt(buf: seq<byte>, from: nat, to: nat)
    requires from <= to <= |buf| && AllDigits(buf[from..to])
    ensures forall i :: from <= i < to ==> IsNum(buf[i])
  {
    forall i | from <= i < to ensures IsNum(buf[i]) {
      assert buf[i] == buf[from..to][i - from];
    }
  }

  /** The digits read from the start of the port field are the port field. */
  lemma SameDigits(buf: seq<byte>, sp: Span, n: nat)
    requires sp.off + sp.len <= |buf| && AllDigits(Slice(buf, sp))
    requires sp.off + sp.len < |buf| ==> !IsNum(buf[sp.off + sp.len])
    requires sp.off + n <= |buf| && AllDigits(buf[sp.off..sp.off + n])
    requires sp.off + n < |buf| ==> !IsNum(buf[sp.off + n])
    ensures n == sp.len
  {
    DigitsAt(buf, sp.off, sp.off + sp.len);
    DigitsAt(buf, sp.off, sp.off + n);
  }

  lemma FieldsOf(labels: Labels, fs: set<Uf>, data: map<Uf, Span>)
    requires Matches(labels, fs, data)
    ensures forall f :: f in fs <==> Some(f) in labels
    ensures forall f :: f in fs ==> f in data && Marks(labels, f, data[f])
  {
    forall f ensures f in fs <==> Some(f) in labels {
      if f in fs { MarksHead(labels, f, data[f]); }
    }
  }

  lemma OnlyPort(labels: Labels, fs: set<Uf>, data: map<Uf, Span>)
    requires Matches(labels, fs, data)
    ensures forall sp :: Marks(labels, PORT, sp) ==> PORT in fs && PORT in data && sp == data[PORT]
  {
    forall sp | Marks(labels, PORT, sp) ensures PORT in fs && PORT in data && sp == data[PORT] {
      MarksHead(labels, PORT, sp);
      SameSpan(labels, PORT, sp, data[PORT]);
    }
  }
}
