/**
 What the spans mean: on every accepted text the fields lie in the buffer in URL order, without overlap,
 with only delimiters between them; and rendering components and parsing the text gives them back.
 */
module UrlLayout {
  import opened Common
  import opened UrlMachine
  import opened UrlParser

  // ----- Layout of every accepted text

  /** The place of a field in a URL. */
  function Order(f: Uf): nat {
    match f
    case SCHEMA => 0
    case USERINFO => 1
    case HOST => 2
    case PORT => 3
    case PATH => 4
    case QUERY => 5
    case FRAGMENT => 6
  }

  ghost predicate Layout(buf: seq<byte>, fs: set<Uf>, data: map<Uf, Span>) {
    && (forall f :: f in fs ==> f in data && data[f].len > 0 && data[f].off + data[f].len <= |buf|)
    && (forall f, g :: f in fs && g in fs && Order(f) < Order(g) ==> data[f].off + data[f].len <= data[g].off)
    && (forall i :: 0 <= i < |buf| && (forall f :: f in fs ==> !Inside(data[f], i)) ==> IsDelimiter(buf[i]))
  }

  lemma {:induction false} OuterLabel(buf: seq<byte>, isConnect: bool, i: nat)
    requires i < |buf| && Dead !in Trace(Step, StartState(isConnect), buf)
    ensures Outer(buf, isConnect)[i] == None ==> IsDelimiter(buf[i])
  {
    var tr := Trace(Step, StartState(isConnect), buf);
    TraceAt(Step, StartState(isConnect), buf, i);
    RankGrows(if i == 0 then StartState(isConnect) else tr[i - 1], buf[i]);
  }

  lemma InnerLabel(text: seq<byte>, at: bool, k: nat)
    requires k < |text| && HostAccepted(text, at)
    ensures HostLabels(text, at)[k] == None ==> IsDelimiter(text[k])
  {
    var tr := Trace(HStep, HostStartState(at), text);
    TraceAt(HStep, HostStartState(at), text, k);
    HRankGrows(if k == 0 then HostStartState(at) else tr[k - 1], text[k]);
  }

  lemma OuterOrder(buf: seq<byte>, isConnect: bool, i: nat, j: nat)
    requires i <= j < |buf| && Outer(buf, isConnect)[i].Some? && Outer(buf, isConnect)[j].Some?
    ensures Order(Outer(buf, isConnect)[i].value) <= Order(Outer(buf, isConnect)[j].value)
  {
    RanksSorted(StartState(isConnect), buf, i, j);
  }

  lemma InnerOrder(text: seq<byte>, at: bool, i: nat, j: nat)
    requires i <= j < |text| && HostLabels(text, at)[i].Some? && HostLabels(text, at)[j].Some?
    ensures Order(HostLabels(text, at)[i].value) <= Order(HostLabels(text, at)[j].value)
    ensures 1 <= Order(HostLabels(text, at)[i].value) <= 3
    ensures 1 <= Order(HostLabels(text, at)[j].value) <= 3
  {
    HRanksSorted(HostStartState(at), text, i, j);
  }

  /** The final labels appear in URL order. */
  lemma FinalOrder(buf: seq<byte>, isConnect: bool, hs: Span, i: nat, j: nat)
    requires BothPasses(buf, isConnect, hs) && i <= j < |buf|
    requires Final(buf, isConnect, hs)[i].Some? && Final(buf, isConnect, hs)[j].Some?
    ensures Order(Final(buf, isConnect, hs)[i].value) <= Order(Final(buf, isConnect, hs)[j].value)
  {
    hide HostLabels, FoundAt, HostAccepted, Outer, Overlay, Order;
    var outer := Outer(buf, isConnect);
    if Some(HOST) !in outer {
      OuterOrder(buf, isConnect, i, j);
    } else {
      var text, at := Slice(buf, hs), FoundAt(buf, isConnect);
      OverlayAt(outer, HostLabels(text, at), hs.off, i);
      OverlayAt(outer, HostLabels(text, at), hs.off, j);
      HostIsBetween(buf, isConnect, hs, i, j);
      if Inside(hs, i) && Inside(hs, j) {
        InnerOrder(text, at, i - hs.off, j - hs.off);
      } else if Inside(hs, i) {
        InnerOrder(text, at, i - hs.off, i - hs.off);
      } else if Inside(hs, j) {
        InnerOrder(text, at, j - hs.off, j - hs.off);
      } else {
        OuterOrder(buf, isConnect, i, j);
      }
    }
  }

  lemma OverlayAt(outer: Labels, host: Labels, off: nat, i: nat)
    requires off + |host| <= |outer| && i < |outer|
    ensures Overlay(outer, host, off, |outer|)[i] == if off <= i < off + |host| then host[i - off] else outer[i]
  {}

  /** What lies behind the host field comes later in URL order than anything in it, and what lies before comes earlier. */
  lemma {:induction false} HostIsBetween(buf: seq<byte>, isConnect: bool, hs: Span, i: nat, j: nat)
    requires Marks(Outer(buf, isConnect), HOST, hs) && i <= j < |buf|
    ensures var outer := Outer(buf, isConnect);
      && (Inside(hs, i) && !Inside(hs, j) && outer[j].Some? ==> 3 < Order(outer[j].value))
      && (Inside(hs, j) && !Inside(hs, i) && outer[i].Some? ==> Order(outer[i].value) < 1)
  {
    hide Outer;
    var outer := Outer(buf, isConnect);
    NoPortOutside(buf, isConnect);
    if outer[i].Some? && outer[j].Some? {
      OuterOrder(buf, isConnect, i, j);
    }
    assert Inside(hs, i) <==> outer[i] == Some(HOST);
    assert Inside(hs, j) <==> outer[j] == Some(HOST);
  }

  lemma FinalDelimiters(buf: seq<byte>, isConnect: bool, hs: Span, i: nat)
    requires BothPasses(buf, isConnect, hs) && i < |buf| && Final(buf, isConnect, hs)[i] == None
    ensures IsDelimiter(buf[i])
  {
    hide IsDelimiter, Outer, HostLabels, HostAccepted, FoundAt, Marks, Trace;
    if Some(HOST) in Outer(buf, isConnect) && Inside(hs, i) {
      InsideHost(buf, isConnect, hs, i);
      InnerLabel(Slice(buf, hs), FoundAt(buf, isConnect), i - hs.off);
    } else {
      OuterLabel(buf, isConnect, i);
    }
  }

  lemma LabelledIsInside(labels: Labels, fs: set<Uf>, data: map<Uf, Span>, i: nat)
    requires Matches(labels, fs, data) && i < |labels|
    ensures labels[i].Some? ==> labels[i].value in fs && Inside(data[labels[i].value], i)
  {}

  lemma AcceptsBoth(buf: seq<byte>, isConnect: bool, hs: Span)
    requires Accepts(buf, isConnect, hs)
    ensures BothPasses(buf, isConnect, hs) && hs.off + hs.len <= |buf|
  {}

  /** Every accepted text, whatever its form, is laid out like a URL. */
  lemma AcceptedLayout(buf: seq<byte>, isConnect: bool, hs: Span, fs: set<Uf>, data: map<Uf, Span>)
    requires Accepts(buf, isConnect, hs) && Matches(Final(buf, isConnect, hs), fs, data)
    ensures Layout(buf, fs, data)
  {
    hide Accepts, Final, BothPasses, Matches, IsDelimiter, Order;
    AcceptsBoth(buf, isConnect, hs);
    var final := Final(buf, isConnect, hs);
    FieldsOf(final, fs, data);
    forall f, g | f in fs && g in fs && Order(f) < Order(g)
      ensures data[f].off + data[f].len <= data[g].off
    {
      var a, b := data[f], data[g];
      assert final[b.off] == Some(g);
      assert final[a.off + a.len - 1] == Some(f);
      if b.off <= a.off + a.len - 1 {
        FinalOrder(buf, isConnect, hs, b.off, a.off + a.len - 1);
      }
    }
    forall i | 0 <= i < |buf| && (forall f :: f in fs ==> !Inside(data[f], i)) ensures IsDelimiter(buf[i]) {
      LabelledIsInside(final, fs, data, i);
      FinalDelimiters(buf, isConnect, hs, i);
    }
  }
}
