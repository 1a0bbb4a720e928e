/**
 The decoder for chunked HTTP bodies (RFC 9112, section 7.1). Bytes arrive in any portions, and
 `available` and `read` may be called at any time in between.
 */
module HttpChunked {
  import opened Common
  import opened Arith
  import Number = PrintNumber

  const CR: byte := '\r' as int
  const LF: byte := '\n' as int
  const CRLF: seq<byte> := [CR, LF]

  // ----- Chunked bodies

  predicate AllHex(s: seq<byte>) {
    forall i :: 0 <= i < |s| ==> HexVal(s[i]).Some?
  }

  /** A chunk with the digits of its size as they are sent: either case, leading zeros allowed. */
  datatype Chunk = Chunk(size: seq<byte>, data: seq<byte>)

  predicate IsChunk(c: Chunk) {
    c.size != [] && AllHex(c.size) && HexValue(c.size) == |c.data|
  }

  /** Only the last chunk is empty. */
  ghost predicate IsBody(cs: seq<Chunk>) {
    cs != [] && forall i :: 0 <= i < |cs| ==> IsChunk(cs[i]) && (cs[i].data == [] <==> i == |cs| - 1)
  }

  /** The chunks from the i-th on, as they are sent. */
  function Wire(cs: seq<Chunk>, i: nat): seq<byte>
    requires i <= |cs|
    decreases |cs| - i
  {
    if i == |cs| then [] else (cs[i].size + CRLF) + (cs[i].data + (CRLF + Wire(cs, i + 1)))
  }

  /** The data of the chunks before the i-th. */
  function Data(cs: seq<Chunk>, i: nat): seq<byte>
    requires i <= |cs|
  {
    if i == 0 then [] else Data(cs, i - 1) + cs[i - 1].data
  }

  /** The decoded body. */
  function Body(cs: seq<Chunk>): seq<byte> {
    Data(cs, |cs|)
  }

  // ----- The decoder

  datatype State = ReadingBody | ReadingChunkLength | ReadingBodyChunk

  datatype Decoder = Decoder(state: State, length: int, taken: nat)

  /** What one byte of a line does in the loop of `available`. */
  function LineByte(d: Decoder, c: byte): (e: Decoder)
    ensures e.taken == d.taken + 1
  {
    var next := d.(taken := d.taken + 1);
    if c == LF then next.(state := ReadingBodyChunk)
    else if c == CR then next
    else if HexVal(c).Some? then next.(length := d.length * 16 + HexVal(c).value)
    else next
  }

  /** The loop of `available`: takes bytes up to the end of a line, adding up hex digits. */
  function Scan(d: Decoder, input: seq<byte>, arrived: nat): (e: Decoder)
    requires d.taken <= arrived <= |input|
    ensures d.taken <= e.taken <= arrived
    decreases arrived - d.taken
  {
    if d.taken == arrived then d
    else
      var e := LineByte(d, input[d.taken]);
      if input[d.taken] == LF then e else Scan(e, input, arrived)
  }

  /** The end of a line that gave no length starts another line. */
  function Settle(d: Decoder): Decoder {
    if d.state == ReadingBodyChunk && d.length == 0 then d.(state := ReadingChunkLength) else d
  }

  /** The effect of a call of `available`. */
  function AfterAvailable(d: Decoder, input: seq<byte>, arrived: nat): (e: Decoder)
    requires d.taken <= arrived <= |input|
    ensures d.taken <= e.taken <= arrived
  {
    Settle(if d.state == ReadingChunkLength then Scan(d, input, arrived) else d)
  }

  /** What the call answers, given its effect. */
  function Answer(d: Decoder, arrived: nat): int
    requires d.taken <= arrived
  {
    if d.state == ReadingChunkLength then 0
    else if d.state == ReadingBodyChunk then
      if arrived - d.taken < d.length then arrived - d.taken else d.length
    else arrived - d.taken
  }

  /** The effect of taking one byte of the body. */
  function TakeOne(d: Decoder): Decoder {
    var e := d.(taken := d.taken + 1);
    if d.state != ReadingBodyChunk then e
    else if d.length - 1 == 0 then e.(length := 0, state := ReadingChunkLength)
    else e.(length := d.length - 1)
  }

  /** The effect of a call of `read`, and its answer: the byte, or None for -1. */
  function AfterRead(d: Decoder, input: seq<byte>, arrived: nat, chunked: bool): (r: (Decoder, Option<byte>))
    requires d.taken <= arrived <= |input|
    ensures d.taken <= r.0.taken <= arrived
  {
    var e := if chunked then AfterAvailable(d, input, arrived) else d;
    if chunked && Answer(e, arrived) == 0 then (e, None)
    else if e.taken == arrived then (e, None)
    else (TakeOne(e), Some(input[e.taken]))
  }

  // ----- Where the decoder is

  /** In the line that gives the size of chunk i, in its data, or in the line end behind its data. */
  datatype Place = Sizing(i: nat, k: nat) | Inside(i: nat, k: nat) | Behind(i: nat, k: nat)

  ghost predicate IsPlace(cs: seq<Chunk>, p: Place) {
    && p.i < |cs|
    && match p
       case Sizing(i, k) => k < |cs[i].size| + 2
       case Inside(i, k) => k < |cs[i].data|
       case Behind(i, k) => k < 2 || (k == 2 && i == |cs| - 1)
  }

  /** The text that a place is in. */
  function Line(cs: seq<Chunk>, p: Place): seq<byte>
    requires p.i < |cs|
  {
    match p
    case Sizing(i, _) => cs[i].size + CRLF
    case Inside(i, _) => cs[i].data
    case Behind(_, _) => CRLF
  }

  /** What follows that text. */
  function After(cs: seq<Chunk>, p: Place): seq<byte>
    requires p.i < |cs|
  {
    match p
    case Sizing(i, _) => cs[i].data + (CRLF + Wire(cs, i + 1))
    case Inside(i, _) => CRLF + Wire(cs, i + 1)
    case Behind(i, _) => Wire(cs, i + 1)
  }

  /** What is still to be taken. */
  function Rest(cs: seq<Chunk>, p: Place): seq<byte>
    requires IsPlace(cs, p)
  {
    Line(cs, p)[p.k..] + After(cs, p)
  }

  /** One byte further. */
  function Step(cs: seq<Chunk>, p: Place): (q: Place)
    requires IsBody(cs) && IsPlace(cs, p) && p.k < |Line(cs, p)|
    ensures IsPlace(cs, q)
  {
    if p.k + 1 < |Line(cs, p)| then p.(k := p.k + 1)
    else
      match p
      case Sizing(i, _) => if cs[i].data == [] then Behind(i, 0) else Inside(i, 0)
      case Inside(i, _) => Behind(i, 0)
      case Behind(i, _) => if i == |cs| - 1 then Behind(i, 2) else Sizing(i + 1, 0)
  }

  /** What has been returned. */
  function Given(cs: seq<Chunk>, p: Place): seq<byte>
    requires IsPlace(cs, p)
  {
    match p
    case Sizing(i, _) => Data(cs, i)
    case Inside(i, k) => Data(cs, i) + cs[i].data[..k]
    case Behind(i, _) => Data(cs, i + 1)
  }

  /** What is left of the current chunk. */
  function LeftOfChunk(cs: seq<Chunk>, p: Place): nat
    requires IsPlace(cs, p)
  {
    if p.Inside? then |cs[p.i].data| - p.k else 0
  }

  ghost predicate StateFits(cs: seq<Chunk>, p: Place, d: Decoder)
    requires IsBody(cs) && IsPlace(cs, p)
  {
    match p
    case Sizing(i, k) =>
      var n := if k < |cs[i].size| then k else |cs[i].size|;
      IsChunk(cs[i]) && AllHex(cs[i].size[..n]) && d.state == ReadingChunkLength && d.length == HexValue(cs[i].size[..n])
    case Inside(i, k) => d.state == ReadingBodyChunk && d.length == |cs[i].data| - k
    case Behind(i, k) => d.state == ReadingChunkLength && d.length == 0
  }

  ghost predicate Fits(cs: seq<Chunk>, p: Place, d: Decoder, input: seq<byte>) {
    && IsBody(cs) && IsPlace(cs, p) && StateFits(cs, p, d)
    && d.taken <= |input| && input[d.taken..] == Rest(cs, p)
  }

  // ----- One byte further

  lemma {:induction false} StepRest(cs: seq<Chunk>, p: Place)
    requires IsBody(cs) && IsPlace(cs, p) && p.k < |Line(cs, p)|
    ensures Rest(cs, p) == [Line(cs, p)[p.k]] + Rest(cs, Step(cs, p))
  {
    hide Step, After, Line, IsBody;
    var line, k := Line(cs, p), p.k;
    assert line[k..] == [line[k]] + line[k + 1..];
    Assoc([line[k]], line[k + 1..], After(cs, p));
    if k + 1 == |line| {
      assert line[k + 1..] + After(cs, p) == After(cs, p);
      NextText(cs, p);
    } else {
      SameText(cs, p);
    }
  }

  lemma SameText(cs: seq<Chunk>, p: Place)
    requires IsBody(cs) && IsPlace(cs, p) && p.k + 1 < |Line(cs, p)|
    ensures Rest(cs, Step(cs, p)) == Line(cs, p)[p.k + 1..] + After(cs, p)
  {
    hide IsBody, Line, After, Wire;
    SamePlace(cs, p, p.(k := p.k + 1));
  }

  lemma SamePlace(cs: seq<Chunk>, p: Place, q: Place)
    requires p.i < |cs| && q == p.(k := q.k)
    ensures Line(cs, q) == Line(cs, p) && After(cs, q) == After(cs, p)
  {
    hide Wire;
  }

  /** What follows a text is the next text from its start. */
  lemma NextText(cs: seq<Chunk>, p: Place)
    requires IsBody(cs) && IsPlace(cs, p) && p.k + 1 == |Line(cs, p)|
    ensures Rest(cs, Step(cs, p)) == After(cs, p)
  {
    hide Rest, After, Step, IsBody;
    match p {
      case Sizing(i, k) => DataBegins(cs, i, k);
      case Inside(i, k) => DataEnds(cs, i, k);
      case Behind(i, k) => NextLine(cs, i);
    }
  }

  /** Behind the size line of chunk i. */
  lemma DataBegins(cs: seq<Chunk>, i: nat, k: nat)
    requires IsBody(cs) && i < |cs| && k == |cs[i].size| + 1
    ensures Rest(cs, Step(cs, Sizing(i, k))) == After(cs, Sizing(i, k))
  {
    hide IsBody, Step, Line, After, Wire;
    BehindSize(cs, i, k);
    var data, after := cs[i].data, CRLF + Wire(cs, i + 1);
    if data == [] {
      FromStart(CRLF);
      BehindText(cs, i);
      NothingInFront(data, after);
    } else {
      FromStart(data);
      InsideText(cs, i);
    }
    SizingText(cs, i, k);
  }

  lemma NothingInFront(x: seq<byte>, y: seq<byte>)
    requires x == []
    ensures x + y == y
  {}

  lemma BehindSize(cs: seq<Chunk>, i: nat, k: nat)
    requires IsBody(cs) && i < |cs| && k == |cs[i].size| + 1
    ensures Step(cs, Sizing(i, k)) == if cs[i].data == [] then Behind(i, 0) else Inside(i, 0)
  {
    hide IsBody;
  }

  lemma SizingText(cs: seq<Chunk>, i: nat, k: nat)
    requires i < |cs|
    ensures After(cs, Sizing(i, k)) == cs[i].data + (CRLF + Wire(cs, i + 1))
  {
    hide Wire;
  }

  lemma InsideText(cs: seq<Chunk>, i: nat)
    requires i < |cs|
    ensures Line(cs, Inside(i, 0)) == cs[i].data && After(cs, Inside(i, 0)) == CRLF + Wire(cs, i + 1)
  {
    hide Wire;
  }

  lemma BehindText(cs: seq<Chunk>, i: nat)
    requires i < |cs|
    ensures Line(cs, Behind(i, 0)) == CRLF && After(cs, Behind(i, 0)) == Wire(cs, i + 1)
  {
    hide Wire;
  }

  /** Behind the data of chunk i. */
  lemma DataEnds(cs: seq<Chunk>, i: nat, k: nat)
    requires IsBody(cs) && i < |cs| && k + 1 == |cs[i].data|
    ensures Rest(cs, Step(cs, Inside(i, k))) == After(cs, Inside(i, k))
  {
    hide IsBody, Step, Line, After, Wire;
    BehindData(cs, i, k);
    FromStart(CRLF);
    BehindText(cs, i);
    InsideRest(cs, i, k);
  }

  lemma InsideRest(cs: seq<Chunk>, i: nat, k: nat)
    requires i < |cs|
    ensures After(cs, Inside(i, k)) == CRLF + Wire(cs, i + 1)
  {
    hide Wire;
  }

  lemma BehindData(cs: seq<Chunk>, i: nat, k: nat)
    requires IsBody(cs) && i < |cs| && k + 1 == |cs[i].data|
    ensures Step(cs, Inside(i, k)) == Behind(i, 0)
  {
    hide IsBody;
  }

  /** Behind the line end of chunk i. */
  lemma {:induction false} NextLine(cs: seq<Chunk>, i: nat)
    requires IsBody(cs) && i < |cs|
    ensures Rest(cs, Step(cs, Behind(i, 1))) == Wire(cs, i + 1) == After(cs, Behind(i, 1))
  {
    hide IsChunk, HexVal, HexValue, Wire;
    var q := if i == |cs| - 1 then Behind(i, 2) else Sizing(i + 1, 0);
    assert Step(cs, Behind(i, 1)) == q;
    WireEnd(cs);
    if i + 1 < |cs| {
      WireUnfold(cs, i + 1);
    } else {
      assert CRLF[2..] == [];
    }
  }

  lemma WireEnd(cs: seq<Chunk>)
    ensures Wire(cs, |cs|) == []
  {}

  lemma FromStart(s: seq<byte>)
    ensures s[0..] == s && [] + s == s
  {}

  lemma WireUnfold(cs: seq<Chunk>, i: nat)
    requires i < |cs|
    ensures Wire(cs, i) == Rest(cs, Sizing(i, 0))
  {
    hide Wire, Line, After;
    var p := Sizing(i, 0);
    WireParts(cs, i);
    FromStart(Line(cs, p));
  }

  lemma WireParts(cs: seq<Chunk>, i: nat)
    requires i < |cs|
    ensures Wire(cs, i) == Line(cs, Sizing(i, 0)) + After(cs, Sizing(i, 0))
  {
    hide Wire;
    WireOnce(cs, i);
    var size, tail := cs[i].size + CRLF, cs[i].data + (CRLF + Wire(cs, i + 1));
    assert Line(cs, Sizing(i, 0)) == size;
    assert After(cs, Sizing(i, 0)) == tail;
  }

  lemma WireOnce(cs: seq<Chunk>, i: nat)
    requires i < |cs|
    ensures Wire(cs, i) == (cs[i].size + CRLF) + (cs[i].data + (CRLF + Wire(cs, i + 1)))
  {}

  /** The byte at the place is the one to be taken. */
  lemma {:induction false} OneByte(cs: seq<Chunk>, p: Place, input: seq<byte>, t: nat)
    requires IsBody(cs) && IsPlace(cs, p) && p.k < |Line(cs, p)| && t <= |input| && input[t..] == Rest(cs, p)
    ensures t < |input| && input[t] == Line(cs, p)[p.k] && input[t + 1..] == Rest(cs, Step(cs, p))
  {
    hide Rest, Step, Line, IsBody;
    StepRest(cs, p);
    assert input[t..][0] == input[t];
    assert input[t + 1..] == input[t..][1..];
  }

  lemma {:induction false} StepGiven(cs: seq<Chunk>, p: Place)
    requires IsBody(cs) && IsPlace(cs, p) && p.k < |Line(cs, p)|
    ensures Given(cs, Step(cs, p)) == Given(cs, p) + if p.Inside? then [Line(cs, p)[p.k]] else []
  {
    if p.Inside? {
      var data, before := cs[p.i].data, Data(cs, p.i);
      assert Data(cs, p.i + 1) == before + data;
      hide Data;
      assert data[..p.k + 1] == data[..p.k] + [data[p.k]];
      assert data[..|data|] == data;
      Assoc(before, data[..p.k], [data[p.k]]);
    } else if p.Sizing? && cs[p.i].data == [] {
      assert Data(cs, p.i + 1) == Data(cs, p.i) + [];
    }
  }

  /** A byte of a line brings the decoder into the state for the next place. */
  lemma StepState(cs: seq<Chunk>, p: Place, d: Decoder)
    requires IsBody(cs) && IsPlace(cs, p) && p.k < |Line(cs, p)| && StateFits(cs, p, d)
    ensures var c := Line(cs, p)[p.k];
      && (p.Inside? ==> StateFits(cs, Step(cs, p), TakeOne(d)))
      && (!p.Inside? ==>
           && (c == LF <==> p.k == |Line(cs, p)| - 1)
           && StateFits(cs, Step(cs, p), if c == LF then Settle(LineByte(d, c)) else LineByte(d, c)))
  {
    if p.Sizing? { SizingState(cs, p, d); }
    if p.Behind? { BehindState(cs, p, d); }
  }

  lemma SizingState(cs: seq<Chunk>, p: Place, d: Decoder)
    requires IsBody(cs) && IsPlace(cs, p) && p.k < |Line(cs, p)| && StateFits(cs, p, d) && p.Sizing?
    ensures var c := Line(cs, p)[p.k];
      && (c == LF <==> p.k == |Line(cs, p)| - 1)
      && StateFits(cs, Step(cs, p), if c == LF then Settle(LineByte(d, c)) else LineByte(d, c))
  {
    assert IsChunk(cs[p.i]);
    var size, k := cs[p.i].size, p.k;
    if k < |size| {
      assert size[..k + 1][..k] == size[..k];
      assert size[..k + 1][k] == size[k] == (size + CRLF)[k];
    } else {
      assert size[..|size|] == size;
    }
  }

  lemma BehindState(cs: seq<Chunk>, p: Place, d: Decoder)
    requires IsBody(cs) && IsPlace(cs, p) && p.k < |Line(cs, p)| && StateFits(cs, p, d) && p.Behind?
    ensures var c := Line(cs, p)[p.k];
      && (c == LF <==> p.k == |Line(cs, p)| - 1)
      && StateFits(cs, Step(cs, p), if c == LF then Settle(LineByte(d, c)) else LineByte(d, c))
  {
    if p.k == 1 && p.i + 1 < |cs| {
      assert IsChunk(cs[p.i + 1]);
      assert cs[p.i + 1].size[..0] == [];
    }
  }

  /** One byte of a line keeps the decoder at its place; so does one byte of data. */
  lemma {:induction false} StepFits(cs: seq<Chunk>, p: Place, d: Decoder, input: seq<byte>)
    requires Fits(cs, p, d, input) && p.k < |Line(cs, p)|
    ensures d.taken < |input| && input[d.taken] == Line(cs, p)[p.k]
    ensures var c := input[d.taken];
      && (p.Inside? ==> Fits(cs, Step(cs, p), TakeOne(d), input))
      && (!p.Inside? ==>
           && (c == LF <==> p.k == |Line(cs, p)| - 1)
           && Fits(cs, Step(cs, p), if c == LF then Settle(LineByte(d, c)) else LineByte(d, c), input))
  {
    hide StateFits, Step, Rest, HexVal;
    OneByte(cs, p, input, d.taken);
    StepState(cs, p, d);
  }

  /** How far a call of `available` is from the data of the next chunk. */
  function LinesAhead(p: Place): nat {
    match p
    case Sizing(_, _) => 1
    case Inside(_, _) => 0
    case Behind(_, _) => 2
  }

  /** Nothing is left to take only when everything has been returned. */
  lemma NotAtEnd(cs: seq<Chunk>, p: Place, d: Decoder, input: seq<byte>)
    requires Fits(cs, p, d, input)
    ensures d.taken == |input| ==> Given(cs, p) == Body(cs)
    ensures d.taken < |input| ==> p.k < |Line(cs, p)|
  {
    assert input[d.taken..] == Rest(cs, p);
    if p.k < |Line(cs, p)| {
      OneByte(cs, p, input, d.taken);
    } else {
      assert Rest(cs, p) == [];
    }
  }

  /** A line end that does not lead to data is the end of the body. */
  lemma EmptyIsLast(cs: seq<Chunk>, p: Place)
    requires IsBody(cs) && IsPlace(cs, p)
    ensures p.Sizing? && cs[p.i].data == [] ==> Given(cs, p) == Body(cs)
    ensures p.Behind? && p.i == |cs| - 1 ==> Given(cs, p) == Body(cs)
  {
    if p.Sizing? && cs[p.i].data == [] {
      assert p.i == |cs| - 1;
      assert Data(cs, p.i + 1) == Data(cs, p.i) + [];
    }
  }

  lemma ScanState(cs: seq<Chunk>, p: Place, d: Decoder, input: seq<byte>)
    requires Fits(cs, p, d, input)
    ensures IsBody(cs) && IsPlace(cs, p)
    ensures d.state == ReadingChunkLength <==> !p.Inside?
    ensures d.state == ReadingBodyChunk <==> p.Inside?
    ensures p.Inside? ==> d.length == |cs[p.i].data| - p.k > 0
  {}

  /**
   The scan keeps the decoder where it should be and skips no data. Once everything has arrived it
   comes to the end of the line.
   */
  lemma {:induction false} ScanFits(cs: seq<Chunk>, p: Place, d: Decoder, input: seq<byte>, arrived: nat) returns (q: Place)
    requires Fits(cs, p, d, input) && d.state == ReadingChunkLength && d.taken <= arrived <= |input|
    ensures Fits(cs, q, Settle(Scan(d, input, arrived)), input) && Given(cs, q) == Given(cs, p)
    ensures arrived == |input| && Given(cs, p) != Body(cs) ==> LinesAhead(q) < LinesAhead(p)
    decreases arrived - d.taken
  {
    hide Fits, Given, IsBody, Body, LineByte, Settle;
    ScanState(cs, p, d, input);
    NotAtEnd(cs, p, d, input);
    EmptyIsLast(cs, p);
    q := p;
    SettleLine(d);
    if d.taken < arrived {
      StepFits(cs, p, d, input);
      StepGiven(cs, p);
      LineGoesOn(d, input[d.taken]);
      if input[d.taken] == LF {
        q := Step(cs, p);
      } else {
        q := ScanFits(cs, Step(cs, p), LineByte(d, input[d.taken]), input, arrived);
      }
    }
  }

  lemma SettleLine(d: Decoder)
    ensures d.state == ReadingChunkLength ==> Settle(d) == d
  {}

  lemma LineGoesOn(d: Decoder, c: byte)
    ensures c != LF ==> LineByte(d, c).state == d.state
  {}

  // ----- Calls

  /** After `available`: nothing is lost, and the answer is what has arrived of the current chunk. */
  lemma {:induction false} AvailableFits(cs: seq<Chunk>, p: Place, d: Decoder, input: seq<byte>, arrived: nat) returns (q: Place)
    requires Fits(cs, p, d, input) && d.taken <= arrived <= |input|
    ensures var e := AfterAvailable(d, input, arrived);
      && Fits(cs, q, e, input) && Given(cs, q) == Given(cs, p)
      && var left := LeftOfChunk(cs, q);
      && Answer(e, arrived) == (if arrived - e.taken < left then arrived - e.taken else left)
      && (arrived == |input| && Given(cs, p) != Body(cs) ==> Answer(e, arrived) > 0 || (p.Behind? && q.Sizing?))
  {
    hide Fits, Given;
    ScanState(cs, p, d, input);
    if p.Inside? {
      q := p;
    } else {
      q := ScanFits(cs, p, d, input, arrived);
    }
    var e := AfterAvailable(d, input, arrived);
    ScanState(cs, q, e, input);
    if q.Inside? { StepFits(cs, q, e, input); }
  }

  /** After `read`: a byte is the next one of the body, and there is one if any of the chunk has arrived. */
  lemma {:induction false} ReadFits(cs: seq<Chunk>, p: Place, d: Decoder, input: seq<byte>, arrived: nat) returns (q: Place)
    requires Fits(cs, p, d, input) && d.taken <= arrived <= |input|
    ensures var (e, c) := AfterRead(d, input, arrived, true);
      && Fits(cs, q, e, input)
      && Given(cs, q) == Given(cs, p) + (if c.Some? then [c.value] else [])
      && (arrived == |input| && Given(cs, p) != Body(cs) ==> c.Some? || (p.Behind? && q.Sizing?))
  {
    hide AfterAvailable, Fits, Given, TakeOne, Step;
    q := AvailableFits(cs, p, d, input, arrived);
    var e := AfterAvailable(d, input, arrived);
    ScanState(cs, q, e, input);
    if q.Inside? && e.taken < arrived {
      StepFits(cs, q, e, input);
      StepGiven(cs, q);
      q := Step(cs, q);
    }
  }

  // ----- Every run

  datatype Event = Arrive(upTo: nat) | Available | Read

  /** The decoder, how much has arrived, and everything that `read` has returned. */
  datatype Snapshot = Snapshot(d: Decoder, arrived: nat, returned: seq<byte>)

  /** Behind the headers of a response. */
  ghost predicate Start(chunked: bool, s: Snapshot) {
    s.d == Decoder(if chunked then ReadingChunkLength else ReadingBody, 0, 0) && s.returned == []
  }

  ghost predicate Happens(chunked: bool, input: seq<byte>, s: Snapshot, e: Event, t: Snapshot) {
    && s.d.taken <= s.arrived <= |input|
    && match e
       case Arrive(n) => s.arrived <= n <= |input| && t == s.(arrived := n)
       case Available => t == s.(d := AfterAvailable(s.d, input, s.arrived))
       case Read =>
         var (d, c) := AfterRead(s.d, input, s.arrived, chunked);
         t == s.(d := d, returned := s.returned + if c.Some? then [c.value] else [])
  }

  ghost predicate IsRun(chunked: bool, input: seq<byte>, states: seq<Snapshot>, events: seq<Event>) {
    && |states| == |events| + 1 && Start(chunked, states[0]) && states[0].arrived <= |input|
    && forall i :: 0 <= i < |events| ==> Happens(chunked, input, states[i], events[i], states[i + 1])
  }

  /** The decoder is at p: everything before p has been returned, everything behind it is still to come. */
  ghost predicate Reached(cs: seq<Chunk>, input: seq<byte>, s: Snapshot, p: Place) {
    && Fits(cs, p, s.d, input) && s.d.taken <= s.arrived <= |input|
    && s.returned == Given(cs, p)
  }

  lemma StartsInFirstLine(cs: seq<Chunk>, input: seq<byte>, s: Snapshot)
    requires IsBody(cs) && input == Wire(cs, 0) && Start(true, s) && s.arrived <= |input|
    ensures Reached(cs, input, s, Sizing(0, 0))
  {
    WireUnfold(cs, 0);
    assert IsChunk(cs[0]);
    assert cs[0].size[..0] == [];
    FromStart(input);
  }

  lemma {:induction false} EventFits(cs: seq<Chunk>, input: seq<byte>, s: Snapshot, e: Event, t: Snapshot, p: Place) returns (q: Place)
    requires Reached(cs, input, s, p) && Happens(true, input, s, e, t)
    ensures Reached(cs, input, t, q)
  {
    hide Fits, Given, AfterAvailable, AfterRead;
    match e
    case Arrive(_) => q := p;
    case Available => q := AvailableFits(cs, p, s.d, input, s.arrived);
    case Read => q := ReadFits(cs, p, s.d, input, s.arrived);
  }

  /**
   In every run over a chunked body, whatever the arrivals and the calls, the bytes returned are those
   of the body up to a place, and `available` there answers no more than is left of the chunk.
   */
  lemma {:induction false} EveryRunDecodes(cs: seq<Chunk>, input: seq<byte>, states: seq<Snapshot>, events: seq<Event>, n: nat)
      returns (p: Place)
    requires IsBody(cs) && input == Wire(cs, 0) && IsRun(true, input, states, events) && n < |states|
    ensures Reached(cs, input, states[n], p)
    ensures states[n].returned <= Body(cs)
    ensures var s := states[n];
      exists q :: Reached(cs, input, s.(d := AfterAvailable(s.d, input, s.arrived)), q)
        && 0 <= Answer(AfterAvailable(s.d, input, s.arrived), s.arrived) <= LeftOfChunk(cs, q)
  {
    hide Fits, Given, AfterAvailable, LeftOfChunk;
    if n == 0 {
      StartsInFirstLine(cs, input, states[0]);
      p := Sizing(0, 0);
    } else {
      var p' := EveryRunDecodes(cs, input, states, events, n - 1);
      assert Happens(true, input, states[n - 1], events[n - 1], states[n - 1 + 1]);
      p := EventFits(cs, input, states[n - 1], events[n - 1], states[n], p');
    }
    GivenIsPrefix(cs, p, states[n].d, input);
    var s := states[n];
    var q := AvailableFits(cs, p, s.d, input, s.arrived);
    assert Reached(cs, input, s.(d := AfterAvailable(s.d, input, s.arrived)), q);
  }

  lemma {:induction false} DataPrefix(cs: seq<Chunk>, i: nat, j: nat)
    requires i <= j <= |cs|
    ensures Data(cs, i) <= Data(cs, j)
  {
    if i < j { DataPrefix(cs, i, j - 1); }
  }

  lemma {:induction false} GivenIsPrefix(cs: seq<Chunk>, p: Place, d: Decoder, input: seq<byte>)
    requires Fits(cs, p, d, input)
    ensures Given(cs, p) <= Body(cs)
  {
    hide Data;
    match p {
      case Sizing(i, _) => DataPrefix(cs, i, |cs|);
      case Behind(i, _) => DataPrefix(cs, i + 1, |cs|);
      case Inside(i, k) =>
        DataPrefix(cs, i + 1, |cs|);
        DataNext(cs, i);
        PrefixOfPrefix(Data(cs, i), cs[i].data, k, Data(cs, |cs|));
    }
  }

  lemma DataNext(cs: seq<Chunk>, i: nat)
    requires i < |cs|
    ensures Data(cs, i + 1) == Data(cs, i) + cs[i].data
  {}

  lemma PrefixOfPrefix(a: seq<byte>, b: seq<byte>, k: nat, c: seq<byte>)
    requires k <= |b| && a + b <= c
    ensures a + b[..k] <= c
  {}

  /**
   Once everything has arrived, and the body has not been returned in full, the first or the second
   call of `read` returns its next byte.
   */
  lemma SecondReadYields(cs: seq<Chunk>, input: seq<byte>, s: Snapshot, p: Place)
    requires Reached(cs, input, s, p) && s.arrived == |input| && s.returned != Body(cs)
    ensures var (d1, c1) := AfterRead(s.d, input, s.arrived, true);
      var (d2, c2) := AfterRead(d1, input, s.arrived, true);
      && (c1.Some? ==> s.returned + [c1.value] <= Body(cs))
      && (c1.None? ==> c2.Some? && s.returned + [c2.value] <= Body(cs))
  {
    hide Fits, Given, AfterRead;
    var q := ReadFits(cs, p, s.d, input, s.arrived);
    var (d1, c1) := AfterRead(s.d, input, s.arrived, true);
    GivenIsPrefix(cs, q, d1, input);
    if c1.None? {
      var q2 := ReadFits(cs, q, d1, input, s.arrived);
      var (d2, c2) := AfterRead(d1, input, s.arrived, true);
      GivenIsPrefix(cs, q2, d2, input);
    }
  }

  // ----- A body that is not chunked

  /** Everything taken has been returned. */
  ghost predicate Plain(input: seq<byte>, s: Snapshot) {
    s.d.state == ReadingBody && s.d.taken <= s.arrived <= |input| && s.returned == input[..s.d.taken]
  }

  lemma PlainEvent(input: seq<byte>, s: Snapshot, e: Event, t: Snapshot)
    requires Plain(input, s) && Happens(false, input, s, e, t)
    ensures Plain(input, t)
    ensures t.returned == s.returned + if e.Read? && |s.returned| < s.arrived then [input[|s.returned|]] else []
  {}

  /**
   In every run over a body that is not chunked, whatever the arrivals and the calls: what has been
   returned is what has been taken from the front of the input, `available` answers all that has arrived
   and not been returned, and an event returns the next byte exactly when it is a `read` and there is one.
   */
  lemma {:induction false} EveryPlainRunReads(input: seq<byte>, states: seq<Snapshot>, events: seq<Event>, n: nat)
    requires IsRun(false, input, states, events) && n < |states|
    ensures var s := states[n];
      && s.d.taken == |s.returned| <= s.arrived <= |input| && s.returned == input[..s.d.taken]
      && var e := AfterAvailable(s.d, input, s.arrived);
      && e == s.d && Answer(e, s.arrived) == s.arrived - |s.returned|
    ensures n < |events| ==>
      var s := states[n];
      states[n + 1].returned == s.returned + if events[n].Read? && |s.returned| < s.arrived then [input[|s.returned|]] else []
  {
    hide Happens;
    PlainRun(input, states, events, n);
    if n < |events| {
      assert Happens(false, input, states[n], events[n], states[n + 1]);
      PlainEvent(input, states[n], events[n], states[n + 1]);
    }
  }

  lemma {:induction false} PlainRun(input: seq<byte>, states: seq<Snapshot>, events: seq<Event>, n: nat)
    requires IsRun(false, input, states, events) && n < |states|
    ensures Plain(input, states[n])
  {
    hide Happens;
    if n == 0 {
      assert input[..0] == [];
    } else {
      PlainRun(input, states, events, n - 1);
      assert Happens(false, input, states[n - 1], events[n - 1], states[n - 1 + 1]);
      PlainEvent(input, states[n - 1], events[n - 1], states[n]);
    }
  }

  // ----- How a chunk may be announced

  const ExampleChunks := [Chunk(Codes("4"), Codes("Wiki")), Chunk(Codes("0"), [])]

  /** A body of two chunks, byte by byte. */
  lemma ExampleBody()
    ensures IsBody(ExampleChunks) && Wire(ExampleChunks, 0) == Codes("4\r\nWiki\r\n0\r\n\r\n") && Body(ExampleChunks) == Codes("Wiki")
  {
    hide Wire, IsChunk, Data;
    ExampleIsBody();
    ExampleWire();
  }

  lemma ExampleIsBody()
    ensures IsBody(ExampleChunks) && Body(ExampleChunks) == Codes("Wiki")
  {
    var cs := ExampleChunks;
    HexDigit(Codes("4"));
    HexDigit(Codes("0"));
    assert Data(cs, 0) == [] && Data(cs, 1) == [] + cs[0].data;
  }

  lemma ExampleWire()
    ensures Wire(ExampleChunks, 0) == Codes("4\r\nWiki\r\n0\r\n\r\n")
  {
    hide Wire;
    var cs := ExampleChunks;
    WireOnce(cs, 0);
    WireOnce(cs, 1);
    WireEnd(cs);
  }

  lemma HexDigit(s: seq<byte>)
    requires |s| == 1 && HexVal(s[0]).Some?
    ensures HexValue(s) == HexVal(s[0]).value
  {
    assert s[..0] == [];
  }

  /** The number of the bytes in hexadecimal digits announces them; in either case. */
  lemma PrintedSizeIsChunk(data: seq<byte>)
    ensures IsChunk(Chunk(Number.Text(Number.Digits(|data|, 16)), data))
    ensures IsChunk(Chunk(LowerText(Number.Text(Number.Digits(|data|, 16))), data))
  {
    hide Number.Text, Number.Digits;
    Number.HexOfPrinted(|data|);
    HexIgnoresCase(Number.Text(Number.Digits(|data|, 16)));
  }

  // ----- The client

  class HttpClient {
    const input: seq<byte>
    var arrived: nat
    var taken: nat
    var iState: State
    var iChunkLength: int
    var iIsChunked: bool
    var iContentLength: int
    var iBodyLengthConsumed: int

    ghost predicate Valid()
      reads this
    {
      taken <= arrived <= |input|
    }

    function Value(): Decoder
      reads this
    {
      Decoder(iState, iChunkLength, taken)
    }

    /** The headers have just been read. */
    constructor (input: seq<byte>, chunked: bool, contentLength: int)
      ensures Valid() && this.input == input && arrived == 0 && iIsChunked == chunked && iContentLength == contentLength
      ensures Value() == Decoder(if chunked then ReadingChunkLength else ReadingBody, 0, 0) && iBodyLengthConsumed == 0
    {
      this.input := input;
      arrived, taken, iChunkLength := 0, 0, 0;
      iState := if chunked then ReadingChunkLength else ReadingBody;
      iIsChunked, iContentLength, iBodyLengthConsumed := chunked, contentLength, 0;
    }

    method Available() returns (n: int)
      requires Valid()
      modifies `taken, `iState, `iChunkLength
      ensures Valid()
      ensures Value() == AfterAvailable(old(Value()), input, arrived) && n == Answer(Value(), arrived)
    {
      if iState == ReadingChunkLength {
        ghost var d := Value();
        while arrived - taken > 0
          invariant Valid() && iState == ReadingChunkLength
          invariant Scan(Value(), input, arrived) == Scan(d, input, arrived)
        {
          var c := input[taken];
          taken := taken + 1;
          if c == LF {
            iState := ReadingBodyChunk;
            break;
          } else if c == CR {
          } else if HexVal(c).Some? {
            iChunkLength := iChunkLength * 16 + HexVal(c).value;
          }
        }
      }
      if iState == ReadingBodyChunk && iChunkLength == 0 {
        iState := ReadingChunkLength;
      }
      if iState == ReadingChunkLength {
        return 0;
      }
      var clientAvailable := arrived - taken;
      if iState == ReadingBodyChunk {
        return if clientAvailable < iChunkLength then clientAvailable else iChunkLength;
      } else {
        return clientAvailable;
      }
    }

    method Read() returns (ret: int)
      requires Valid()
      modifies `taken, `iState, `iChunkLength, `iBodyLengthConsumed
      ensures Valid()
      ensures var (d, c) := AfterRead(old(Value()), input, arrived, iIsChunked);
        && Value() == d && ret == (if c.Some? then c.value else -1)
        && iBodyLengthConsumed == old(iBodyLengthConsumed) + if c.Some? && iContentLength > 0 then 1 else 0
    {
      if iIsChunked {
        var n := Available();
        if n == 0 { return -1; }
      }
      if taken == arrived {
        ret := -1;
      } else {
        ret := input[taken];
        taken := taken + 1;
      }
      if ret >= 0 {
        if iContentLength > 0 {
          iBodyLengthConsumed := iBodyLengthConsumed + 1;
        }
        if iState == ReadingBodyChunk {
          iChunkLength := iChunkLength - 1;
          if iChunkLength == 0 {
            iState := ReadingChunkLength;
          }
        }
      }
    }
  }
}
