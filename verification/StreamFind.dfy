/**
 The on-line multi-pattern matcher behind `Stream::find` and `Stream::findUntil`.
 The stream is the sequence of bytes that arrive before a timeout.
 */
module StreamFind {
  import opened Common

  /** A byte source: `timedRead` delivers data[pos], or -1 once the data has run out. */
  class Stream {
    const data: seq<byte>
    var pos: nat

    constructor (data: seq<byte>)
      ensures Valid() && this.data == data && pos == 0
    {
      this.data, pos := data, 0;
    }

    ghost predicate Valid()
      reads this
    {
      pos <= |data|
    }

    method TimedRead() returns (c: int)
      requires Valid()
      modifies `pos
      ensures Valid()
      ensures old(pos) == |data| ==> c == -1 && pos == old(pos)
      ensures old(pos) < |data| ==> c == data[old(pos)] && pos == old(pos) + 1
    {
      if pos == |data| { return -1; }
      c := data[pos];
      pos := pos + 1;
    }
  }

  /** One pattern and how much of it has been matched so far. */
  datatype MultiTarget = MultiTarget(str: seq<byte>, index: nat)

  ghost predicate IsSuffix(p: seq<byte>, s: seq<byte>) {
    |p| <= |s| && s[|s| - |p|..] == p
  }

  /** The first m bytes of str end s. */
  ghost predicate Open(str: seq<byte>, s: seq<byte>, m: nat) {
    m <= |str| && IsSuffix(str[..m], s)
  }

  /** k is the length of the longest proper prefix of str that ends what was consumed. */
  ghost predicate LongestOpen(str: seq<byte>, consumed: seq<byte>, k: nat) {
    && k < |str|
    && Open(str, consumed, k)
    && forall m :: k < m < |str| ==> !Open(str, consumed, m)
  }

  /** str agrees with itself shifted by diff, over m bytes. */
  ghost predicate Agrees(str: seq<byte>, diff: nat, m: nat)
    requires diff + m <= |str|
  {
    forall i :: 0 <= i < m ==> str[i] == str[i + diff]
  }

  /** A non-empty prefix ends s + [c] exactly when it is an open prefix of s extended by c. */
  lemma OpenSnoc(str: seq<byte>, s: seq<byte>, c: byte, m: nat)
    requires 0 < m <= |str|
    ensures Open(str, s + [c], m) <==> Open(str, s, m - 1) && str[m - 1] == c
  {
    var t, p := s + [c], str[..m];
    if m - 1 <= |s| {
      var d := |t| - m;
      assert t[d..] == s[d..] + [c];
      assert p == str[..m - 1] + [str[m - 1]];
    }
  }

  /** Below an open prefix of length k, openness is self-overlap: the check the matcher makes. */
  lemma OpenBelow(str: seq<byte>, s: seq<byte>, k: nat, m: nat)
    requires m <= k && Open(str, s, k)
    ensures Open(str, s, m) <==> Agrees(str, k - m, m)
  {
    assert s[|s| - m..] == s[|s| - k..][k - m..] == str[..k][k - m..] == str[k - m..k];
    assert Agrees(str, k - m, m) <==> str[..m] == str[k - m..k] by {
      if str[..m] == str[k - m..k] {
        forall i | 0 <= i < m ensures str[i] == str[i + (k - m)] {
          assert str[..m][i] == str[k - m..k][i];
        }
      }
    }
  }

  /** The inner comparison loop of the fall-back. */
  method OverlapsAt(str: seq<byte>, diff: nat, m: nat) returns (yes: bool)
    requires diff + m <= |str|
    ensures yes <==> Agrees(str, diff, m)
  {
    var i := 0;
    while i < m
      invariant i <= m && Agrees(str, diff, i)
    {
      if str[i] != str[i + diff] { break; }
      i := i + 1;
    }
    return i == m;
  }

  /**
   A mismatch at origIndex: walk back to the longest shorter prefix that c extends.
   */
  method FallBack(str: seq<byte>, origIndex: nat, c: byte, ghost consumed: seq<byte>)
      returns (index: nat)
    requires 0 < origIndex < |str| && Open(str, consumed, origIndex)
    requires forall m :: origIndex < m <= |str| ==> !Open(str, consumed + [c], m)
    ensures index <= origIndex && Open(str, consumed + [c], index)
    ensures forall m :: index < m <= |str| ==> !Open(str, consumed + [c], m)
  {
    index := origIndex;
    while true
      invariant 0 < index <= origIndex
      invariant forall m :: index < m <= |str| ==> !Open(str, consumed + [c], m)
      decreases index
    {
      OpenSnoc(str, consumed, c, index);
      index := index - 1;
      if c == str[index] {
        OpenBelow(str, consumed, origIndex, index);
        if index == 0 {
          return 1;
        }
        var good := OverlapsAt(str, origIndex - index, index);
        if good {
          return index + 1;
        }
      }
      if index == 0 {
        return 0;
      }
    }
  }

  /**
   One target consumes one byte. `matched` says that the whole target ends the consumed bytes;
   otherwise the index is again the longest open prefix.
   */
  method StepTarget(t: MultiTarget, c: byte, ghost consumed: seq<byte>)
      returns (index: nat, matched: bool)
    requires LongestOpen(t.str, consumed, t.index)
    ensures matched <==> IsSuffix(t.str, consumed + [c])
    ensures !matched ==> LongestOpen(t.str, consumed + [c], index)
  {
    var str, k := t.str, t.index;
    forall m | k < m <= |str|
      ensures Open(str, consumed + [c], m) <==> m == k + 1 && c == str[k]
    {
      OpenSnoc(str, consumed, c, m);
    }
    assert str[..|str|] == str;
    assert IsSuffix(str, consumed + [c]) <==> Open(str, consumed + [c], |str|);
    if c == str[k] {
      return k + 1, k + 1 == |str|;
    }
    matched := false;
    if k == 0 {
      index := 0;
    } else {
      index := FallBack(str, k, c, consumed);
    }
  }

  // ----- The whole search

  /** Some target ends s, and i is the smallest such target. */
  ghost predicate HitsFirst(strs: seq<seq<byte>>, s: seq<byte>, i: nat) {
    && i < |strs| && IsSuffix(strs[i], s)
    && forall j :: 0 <= j < i ==> !IsSuffix(strs[j], s)
  }

  ghost predicate NoHit(strs: seq<seq<byte>>, s: seq<byte>) {
    forall i :: 0 <= i < |strs| ==> !IsSuffix(strs[i], s)
  }

  /**
   What a search over `input` must answer: the target found (or -1) and how many bytes are consumed.
   Prefixes of the input are inspected in order of length.
   */
  ghost predicate Outcome(strs: seq<seq<byte>>, input: seq<byte>, r: int, used: nat) {
    && used <= |input|
    && (forall n :: 0 <= n < used ==> NoHit(strs, input[..n]))
    && (if r < 0
        then r == -1 && used == |input| && NoHit(strs, input)
        else HitsFirst(strs, input[..used], r))
  }

  function Strs(ts: seq<MultiTarget>): (r: seq<seq<byte>>)
    ensures |r| == |ts|
  {
    seq(|ts|, i requires 0 <= i < |ts| => ts[i].str)
  }

  /** Every index is the longest open prefix of its target: what holds at the head of the read loop. */
  ghost predicate AllOpen(ts: seq<MultiTarget>, consumed: seq<byte>) {
    forall i :: 0 <= i < |ts| ==> LongestOpen(ts[i].str, consumed, ts[i].index)
  }

  /** The inner loop of `findMulti`: offer one byte to the targets, in order, until one is complete. */
  method FeedAll(targets: array<MultiTarget>, c: byte, ghost consumed: seq<byte>) returns (hit: int)
    requires AllOpen(targets[..], consumed)
    modifies targets
    ensures Strs(targets[..]) == old(Strs(targets[..]))
    ensures if hit < 0
            then hit == -1 && AllOpen(targets[..], consumed + [c]) && NoHit(Strs(targets[..]), consumed + [c])
            else HitsFirst(Strs(targets[..]), consumed + [c], hit)
  {
    ghost var strs := Strs(targets[..]);
    for t := 0 to targets.Length
      invariant Strs(targets[..]) == strs
      invariant forall j :: 0 <= j < t ==> !IsSuffix(strs[j], consumed + [c])
      invariant AllOpen(targets[..t], consumed + [c])
      invariant AllOpen(targets[t..], consumed)
    {
      assert targets[t..][0] == targets[t] && strs[t] == targets[t].str;
      var index, matched := StepTarget(targets[t], c, consumed);
      ghost var before := targets[..];
      targets[t] := targets[t].(index := index);
      assert targets[..] == before[t := targets[t]];
      assert Strs(targets[..]) == strs;
      if matched {
        return t;
      }
      assert targets[..t + 1] == before[..t] + [targets[t]];
      assert targets[t + 1..] == before[t..][1..];
    }
    assert targets[..targets.Length] == targets[..];
    return -1;
  }

  /** Before the first byte, index 0 is the longest open prefix of every non-empty target. */
  lemma NothingRead(ts: seq<MultiTarget>)
    requires forall i :: 0 <= i < |ts| ==> ts[i].index == 0 && |ts[i].str| > 0
    ensures AllOpen(ts, []) && NoHit(Strs(ts), [])
  {}

  /**
   `findMulti`: all indices start at 0. The indices of the targets are updated in place.
   */
  method FindMulti(stream: Stream, targets: array<MultiTarget>) returns (r: int)
    requires stream.Valid()
    requires forall i :: 0 <= i < targets.Length ==> targets[i].index == 0
    modifies stream`pos, targets
    ensures stream.Valid() && old(stream.pos) <= stream.pos
    ensures Outcome(old(Strs(targets[..])), stream.data[old(stream.pos)..], r, stream.pos - old(stream.pos))
    ensures Strs(targets[..]) == old(Strs(targets[..]))
  {
    hide Strs, AllOpen, NoHit, HitsFirst;
    ghost var strs := Strs(targets[..]);
    ghost var start := stream.pos;
    ghost var input := stream.data[start..];
    for t := 0 to targets.Length
      invariant forall j :: 0 <= j < t ==> |targets[j].str| > 0
    {
      if |targets[t].str| <= 0 {
        EmptyIsHit(targets[..], input, t);
        return t;
      }
    }
    NothingRead(targets[..]);
    assert input[..0] == [];
    while true
      invariant stream.Valid() && start <= stream.pos
      invariant Strs(targets[..]) == strs
      invariant forall n :: 0 <= n <= stream.pos - start ==> NoHit(strs, input[..n])
      invariant AllOpen(targets[..], input[..stream.pos - start])
      decreases |stream.data| - stream.pos
    {
      ghost var n := stream.pos - start;
      var c := stream.TimedRead();
      if c < 0 {
        assert input[..n] == input;
        return -1;
      }
      ghost var now := input[..n + 1];
      assert now == input[..n] + [c];
      var hit := FeedAll(targets, c, input[..n]);
      assert stream.pos - start == n + 1;
      if hit >= 0 {
        return hit;
      }
    }
  }

  /** An empty target is hit before anything is read. */
  lemma EmptyIsHit(ts: seq<MultiTarget>, input: seq<byte>, t: nat)
    requires t < |ts| && ts[t].str == [] && forall j :: 0 <= j < t ==> |ts[j].str| > 0
    ensures HitsFirst(Strs(ts), input[..0], t)
  {}

  /** The targets `findUntil` searches for, in order. */
  function UntilTargets(target: seq<byte>, terminator: Option<seq<byte>>): seq<seq<byte>> {
    if terminator.None? then [target] else [target, terminator.value]
  }

  /** s ends with the target or with the terminator. */
  ghost predicate EndsSearch(target: seq<byte>, terminator: Option<seq<byte>>, s: seq<byte>) {
    IsSuffix(target, s) || (terminator.Some? && IsSuffix(terminator.value, s))
  }

  /** A prefix of the input ends with the target, and no shorter one with the terminator. */
  ghost predicate TargetFirst(target: seq<byte>, terminator: Option<seq<byte>>, input: seq<byte>) {
    exists n :: 0 <= n <= |input| && IsSuffix(target, input[..n])
      && (terminator.Some? ==> forall k :: 0 <= k < n ==> !IsSuffix(terminator.value, input[..k]))
  }

  /**
   `findUntil`: true exactly when the target comes, and no terminator is complete before it. The bytes up
   to the first of the two are consumed, or all when neither comes.
   */
  method FindUntil(stream: Stream, target: seq<byte>, terminator: Option<seq<byte>>) returns (found: bool)
    requires stream.Valid()
    modifies stream`pos
    ensures stream.Valid() && old(stream.pos) <= stream.pos
    ensures found <==> TargetFirst(target, terminator, stream.data[old(stream.pos)..])
    ensures var input, used := stream.data[old(stream.pos)..], stream.pos - old(stream.pos);
      && (found <==> IsSuffix(target, input[..used]))
      && (used == |input| || EndsSearch(target, terminator, input[..used]))
      && forall k :: 0 <= k < used ==> !EndsSearch(target, terminator, input[..k])
  {
    hide IsSuffix, Outcome, TargetFirst;
    var targets;
    if terminator.None? {
      targets := new MultiTarget[1](_ => MultiTarget(target, 0));
    } else {
      targets := new MultiTarget[2](i => if i == 0 then MultiTarget(target, 0) else MultiTarget(terminator.value, 0));
    }
    assert Strs(targets[..]) == UntilTargets(target, terminator);
    ghost var start := stream.pos;
    var i := FindMulti(stream, targets);
    UntilMeaning(target, terminator, stream.data[start..], i, stream.pos - start);
    return i == 0;
  }

  lemma UntilMeaning(target: seq<byte>, terminator: Option<seq<byte>>, input: seq<byte>, r: int, used: nat)
    requires Outcome(UntilTargets(target, terminator), input, r, used)
    ensures used <= |input|
    ensures r == 0 <==> IsSuffix(target, input[..used])
    ensures used == |input| || EndsSearch(target, terminator, input[..used])
    ensures forall k :: 0 <= k < used ==> !EndsSearch(target, terminator, input[..k])
    ensures r == 0 <==> TargetFirst(target, terminator, input)
  {
    hide IsSuffix;
    var strs := UntilTargets(target, terminator);
    assert strs[0] == target && (terminator.Some? ==> strs[1] == terminator.value);
    assert input[..|input|] == input;
    forall k | 0 <= k < used ensures !EndsSearch(target, terminator, input[..k]) {
      assert NoHit(strs, input[..k]);
    }
    if TargetFirst(target, terminator, input) {
      var n: nat :| 0 <= n <= |input| && IsSuffix(target, input[..n])
        && (terminator.Some? ==> forall k :: 0 <= k < n ==> !IsSuffix(terminator.value, input[..k]));
      StopsByHit(strs, input, r, used, n);
    }
  }

  /** `find`: without a terminator, exactly whether the target occurs. */
  lemma FindIsNaiveSearch(target: seq<byte>, input: seq<byte>)
    ensures TargetFirst(target, None, input) <==> Occurs(target, input)
  {
    hide IsSuffix;
    OccursIsSomeSuffix(target, input);
  }

  // ----- What the outcome means

  ghost predicate OccursAt(p: seq<byte>, s: seq<byte>, i: nat) {
    i + |p| <= |s| && s[i..i + |p|] == p
  }

  /** p occurs in s. */
  ghost predicate Occurs(p: seq<byte>, s: seq<byte>) {
    exists i: nat :: OccursAt(p, s, i)
  }

  /** Naive search: p occurs in s exactly when it ends some prefix of s. */
  lemma OccursIsSomeSuffix(p: seq<byte>, s: seq<byte>)
    ensures Occurs(p, s) <==> exists n :: 0 <= n <= |s| && IsSuffix(p, s[..n])
  {
    if i: nat :| OccursAt(p, s, i) {
      assert s[..i + |p|][i..] == p;
      assert IsSuffix(p, s[..i + |p|]);
    }
    if n :| 0 <= n <= |s| && IsSuffix(p, s[..n]) {
      assert s[..n][n - |p|..] == s[n - |p|..n];
      assert OccursAt(p, s, n - |p|);
    }
  }

  /** No search goes past a hit, or past the end. */
  lemma StopsByHit(strs: seq<seq<byte>>, input: seq<byte>, r: int, used: nat, k: nat)
    requires Outcome(strs, input, r, used) && k <= |input|
    requires k == |input| || !NoHit(strs, input[..k])
    ensures used <= k
  {}

  /** The outcome is unique: same answer, same number of bytes consumed. */
  lemma OutcomeUnique(strs: seq<seq<byte>>, input: seq<byte>, r: int, used: nat, r': int, used': nat)
    requires Outcome(strs, input, r, used) && Outcome(strs, input, r', used')
    ensures r == r' && used == used'
  {
    assert input[..|input|] == input;
    StopsByHit(strs, input, r, used, used');
    StopsByHit(strs, input, r', used', used);
  }

  /** If no prefix of s, s included, is hit then no target occurs in s. */
  lemma NoHitNoOccurrence(strs: seq<seq<byte>>, s: seq<byte>, i: nat)
    requires i < |strs|
    requires forall n :: 0 <= n <= |s| ==> NoHit(strs, s[..n])
    ensures !Occurs(strs[i], s)
  {
    OccursIsSomeSuffix(strs[i], s);
    forall n | 0 <= n <= |s| ensures !IsSuffix(strs[i], s[..n]) {
      assert NoHit(strs, s[..n]);
    }
  }

  /** -1 means that no target occurs anywhere; a hit is a real occurrence, the first to be completed. */
  lemma OutcomeIsNaiveSearch(strs: seq<seq<byte>>, input: seq<byte>, r: int, used: nat)
    requires Outcome(strs, input, r, used)
    ensures r == -1 <==> forall i :: 0 <= i < |strs| ==> !Occurs(strs[i], input)
    ensures r >= 0 ==> r < |strs| && |strs[r]| <= used && input[used - |strs[r]|..used] == strs[r]
    ensures r >= 0 ==> forall i, n :: 0 <= i < |strs| && 0 <= n < used ==> !Occurs(strs[i], input[..n])
  {
    assert input[..|input|] == input;
    if r == -1 {
      forall i | 0 <= i < |strs| ensures !Occurs(strs[i], input) {
        NoHitNoOccurrence(strs, input, i);
      }
    } else {
      assert input[used - |strs[r]|..used] == input[..used][used - |strs[r]|..];
      assert OccursAt(strs[r], input, used - |strs[r]|);
      forall i, n | 0 <= i < |strs| && 0 <= n < used ensures !Occurs(strs[i], input[..n]) {
        forall k | 0 <= k <= n ensures NoHit(strs, input[..n][..k]) {
          assert input[..n][..k] == input[..k];
        }
        NoHitNoOccurrence(strs, input[..n], i);
      }
    }
  }
}
