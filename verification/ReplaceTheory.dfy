/**
 Replacing every occurrence of one text by another: the left-to-right meaning, the backward pass that
 `String::replace` makes when the two lengths differ, and exactly when the two agree.
 */
module ReplaceTheory {

  /** f occurs in s at position i. */
  predicate At(s: string, f: string, i: int) {
    0 <= i <= |s| - |f| && s[i..i + |f|] == f
  }

  /** The last occurrence of f in s that starts at or before `upto`, or -1. */
  function LastAt(s: string, f: string, upto: int): (i: int)
    ensures -1 <= i && (0 <= i ==> i <= upto && At(s, f, i))
    ensures forall j :: i < j <= upto ==> !At(s, f, j)
    decreases upto + 1
  {
    if upto < 0 then -1
    else if At(s, f, upto) then upto
    else LastAt(s, f, upto - 1)
  }

  /** Left to right, without overlaps: the documented meaning of replacing all occurrences. */
  function ReplaceAll(s: string, f: string, r: string): string
    requires f != []
  {
    if |s| < |f| then s
    else if At(s, f, 0) then r + ReplaceAll(s[|f|..], f, r)
    else [s[0]] + ReplaceAll(s[1..], f, r)
  }

  /** How many occurrences the left-to-right scan replaces. */
  function Hits(s: string, f: string): nat
    requires f != []
  {
    if |s| < |f| then 0
    else if At(s, f, 0) then 1 + Hits(s[|f|..], f)
    else Hits(s[1..], f)
  }

  /**
   The backward pass over the text a + t, looking for occurrences that start inside a.
   An occurrence may reach into t, which already holds replaced text.
   */
  function Back(a: string, t: string, f: string, r: string): string
    requires f != []
    decreases |a|
  {
    var i := LastAt(a + t, f, |a| - 1);
    if i < 0 then a + t else Back(a[..i], r + (a + t)[i + |f|..], f, r)
  }

  /** How many replacements the backward pass makes. */
  function BackHits(a: string, t: string, f: string, r: string): nat
    requires f != []
    decreases |a|
  {
    var i := LastAt(a + t, f, |a| - 1);
    if i < 0 then 0 else 1 + BackHits(a[..i], r + (a + t)[i + |f|..], f, r)
  }

  /** What `String::replace` leaves in a non-empty string for a non-empty pattern. */
  function CodeReplace(s: string, f: string, r: string): string
    requires f != []
  {
    if |r| == |f| then ReplaceAll(s, f, r) else Back(s, [], f, r)
  }

  // ----- Lengths

  /** n times d, by addition. */
  function Times(n: nat, d: int): int {
    if n == 0 then 0 else d + Times(n - 1, d)
  }

  lemma {:induction false} TimesTell(m: nat, n: nat, d: int)
    requires m < n
    ensures d > 0 ==> Times(m, d) < Times(n, d)
    ensures d < 0 ==> Times(m, d) > Times(n, d)
  {
    if m < n - 1 { TimesTell(m, n - 1, d); }
  }

  lemma {:induction false} ReplaceAllLength(s: string, f: string, r: string)
    requires f != []
    ensures |ReplaceAll(s, f, r)| == |s| + Times(Hits(s, f), |r| - |f|)
  {
    if |s| < |f| {
    } else if At(s, f, 0) {
      ReplaceAllLength(s[|f|..], f, r);
    } else {
      ReplaceAllLength(s[1..], f, r);
    }
  }

  lemma {:induction false} BackLength(a: string, t: string, f: string, r: string)
    requires f != []
    ensures |Back(a, t, f, r)| == |a + t| + Times(BackHits(a, t, f, r), |r| - |f|)
    decreases |a|
  {
    var i := LastAt(a + t, f, |a| - 1);
    if i >= 0 {
      BackLength(a[..i], r + (a + t)[i + |f|..], f, r);
    }
  }

  /** Different numbers of replacements give different results, when the lengths differ. */
  lemma HitsTell(s: string, f: string, r: string)
    requires f != [] && |r| != |f| && BackHits(s, [], f, r) != Hits(s, f)
    ensures Back(s, [], f, r) != ReplaceAll(s, f, r)
  {
    ReplaceAllLength(s, f, r);
    BackLength(s, [], f, r);
    var d, x, y := |r| - |f|, BackHits(s, [], f, r), Hits(s, f);
    if x < y { TimesTell(x, y, d); } else { TimesTell(y, x, d); }
  }

  /** One turn of the backward pass. */
  lemma BackUnfold(a: string, t: string, f: string, r: string, i: int)
    requires f != [] && i == LastAt(a + t, f, |a| - 1)
    ensures i < 0 ==> Back(a, t, f, r) == a + t && BackHits(a, t, f, r) == 0
    ensures i >= 0 ==> i + |f| <= |a + t|
    ensures i >= 0 ==> Back(a, t, f, r) == Back(a[..i], r + (a + t)[i + |f|..], f, r)
    ensures i >= 0 ==> BackHits(a, t, f, r) == 1 + BackHits(a[..i], r + (a + t)[i + |f|..], f, r)
  {}

  // ----- Occurrences

  lemma AtPointwise(s: string, f: string, i: int)
    ensures At(s, f, i) <==> 0 <= i <= |s| - |f| && forall q :: 0 <= q < |f| ==> s[i + q] == f[q]
  {
    if 0 <= i <= |s| - |f| {
      var w := s[i..i + |f|];
      assert forall q :: 0 <= q < |f| ==> w[q] == s[i + q];
    }
  }

  lemma PrefixIsAt(s: string, f: string)
    ensures At(s, f, 0) <==> f <= s
  {}

  /** Shifting the text shifts the occurrences. */
  lemma AtDrop(s: string, f: string, k: nat, i: nat)
    requires k <= |s|
    ensures At(s[k..], f, i) <==> At(s, f, k + i)
  {
    if i <= |s| - k - |f| {
      assert s[k..][i..i + |f|] == s[k + i..k + i + |f|];
    }
  }

  lemma AtTake(s: string, f: string, k: nat, i: int)
    requires k <= |s|
    ensures At(s[..k], f, i) <==> At(s, f, i) && i + |f| <= k
  {
    if 0 <= i <= k - |f| {
      assert s[..k][i..i + |f|] == s[i..i + |f|];
    }
  }

  /** Without an occurrence nothing changes. */
  lemma {:induction false} NoOccurrence(s: string, f: string, r: string)
    requires f != [] && forall i :: 0 <= i < |s| ==> !At(s, f, i)
    ensures ReplaceAll(s, f, r) == s && Hits(s, f) == 0
  {
    if |s| >= |f| {
      forall i | 0 <= i < |s[1..]| ensures !At(s[1..], f, i) {
        AtDrop(s, f, 1, i);
      }
      NoOccurrence(s[1..], f, r);
    }
  }

  lemma ScanHit(s: string, f: string, r: string)
    requires f != [] && At(s, f, 0)
    ensures ReplaceAll(s, f, r) == s[..0] + r + ReplaceAll(s[0 + |f|..], f, r)
    ensures Hits(s, f) == 1 + Hits(s[0 + |f|..], f)
  {
    assert s[..0] + r == r;
  }

  /** Up to the first occurrence, at k, nothing changes. */
  lemma {:induction false} FirstOccurrence(s: string, f: string, r: string, k: nat)
    requires f != [] && At(s, f, k) && forall i :: 0 <= i < k ==> !At(s, f, i)
    ensures ReplaceAll(s, f, r) == s[..k] + r + ReplaceAll(s[k + |f|..], f, r)
    ensures Hits(s, f) == 1 + Hits(s[k + |f|..], f)
  {
    hide ReplaceAll, Hits;
    if k == 0 {
      ScanHit(s, f, r);
    } else {
      var t := s[1..];
      ScanOne(s, f, r);
      FirstInTail(s, f, k, t);
      hide At;
      FirstOccurrence(t, f, r, k - 1);
      assert t[k - 1 + |f|..] == s[k + |f|..];
      GlueHead(s, t, k, r, ReplaceAll(s[k + |f|..], f, r));
    }
  }

  lemma GlueHead(s: string, t: string, k: nat, r: string, rest: string)
    requires 0 < k <= |s| && t == s[1..]
    ensures [s[0]] + (t[..k - 1] + r + rest) == s[..k] + r + rest
  {
    assert [s[0]] + t[..k - 1] == s[..k];
  }

  lemma FirstInTail(s: string, f: string, k: nat, t: string)
    requires 0 < k && At(s, f, k) && t == s[1..] && forall i :: 0 <= i < k ==> !At(s, f, i)
    ensures At(t, f, k - 1) && forall i :: 0 <= i < k - 1 ==> !At(t, f, i)
    ensures k + |f| <= |s|
  {
    AtDrop(s, f, 1, k - 1);
    forall i | 0 <= i < k - 1 ensures !At(t, f, i) {
      AtDrop(s, f, 1, i);
    }
  }

  /** The scan steps over a character where no occurrence starts. */
  lemma ScanOne(s: string, f: string, r: string)
    requires f != [] && |s| >= |f| && !At(s, f, 0)
    ensures ReplaceAll(s, f, r) == [s[0]] + ReplaceAll(s[1..], f, r) && Hits(s, f) == Hits(s[1..], f)
  {}

  /** The same two facts about the part of s from `from` on. */
  lemma NoOccurrenceFrom(s: string, f: string, r: string, from: nat)
    requires f != [] && from <= |s| && forall j :: from <= j ==> !At(s, f, j)
    ensures ReplaceAll(s[from..], f, r) == s[from..] && Hits(s[from..], f) == 0
  {
    forall i | 0 <= i < |s[from..]| ensures !At(s[from..], f, i) {
      AtDrop(s, f, from, i);
    }
    NoOccurrence(s[from..], f, r);
  }

  lemma {:induction false} NextOccurrence(s: string, f: string, r: string, from: nat, k: nat)
    requires f != [] && from <= k && At(s, f, k) && forall j :: from <= j < k ==> !At(s, f, j)
    ensures ReplaceAll(s[from..], f, r) == s[from..k] + r + ReplaceAll(s[k + |f|..], f, r)
    ensures Hits(s[from..], f) == 1 + Hits(s[k + |f|..], f)
  {
    var u, n := s[from..], k - from;
    forall i | 0 <= i <= n ensures At(u, f, i) <==> At(s, f, from + i) {
      AtDrop(s, f, from, i);
    }
    FirstOccurrence(u, f, r, n);
    assert u[n + |f|..] == s[k + |f|..];
    assert u[..n] == s[from..k];
  }

  // ----- The condition

  /** No proper non-empty prefix of f is also a suffix: occurrences of f never overlap. */
  ghost predicate Unbordered(f: string) {
    forall d :: 1 <= d < |f| ==> f[..|f| - d] != f[d..]
  }

  /** One text starts with the other. */
  predicate Comparable(x: string, y: string) {
    x <= y || y <= x
  }

  /** No proper suffix of f can be completed, or continued, by the replacement. */
  ghost predicate NoCatch(f: string, r: string) {
    forall p :: 1 <= p < |f| ==> !Comparable(f[p..], r)
  }

  predicate Constant(f: string) {
    forall q :: 0 <= q < |f| ==> f[q] == f[0]
  }

  /** The pairs of different lengths for which the backward pass is right on every text. */
  ghost predicate Safe(f: string, r: string) {
    (r == [] && Constant(f)) || (Unbordered(f) && NoCatch(f, r))
  }

  // ----- Sufficiency: unbordered patterns that the replacement cannot complete

  /** Occurrences that start in a stay in a. */
  ghost predicate NoCross(a: string, t: string, f: string) {
    forall j :: 0 <= j < |a| && At(a + t, f, j) ==> j + |f| <= |a|
  }

  lemma ReplacementIsNotCaught(a: string, r: string, t: string, f: string)
    requires NoCatch(f, r)
    ensures NoCross(a, r + t, f)
  {
    var s := a + (r + t);
    forall j | 0 <= j < |a| && At(s, f, j) ensures j + |f| <= |a| {
      if j + |f| > |a| {
        CrossingIsComparable(a, r, t, f, j);
      }
    }
  }

  /** An occurrence that reaches from a into r makes a proper suffix of f comparable with r. */
  lemma CrossingIsComparable(a: string, r: string, t: string, f: string, j: nat)
    requires At(a + (r + t), f, j) && j < |a| < j + |f|
    ensures Comparable(f[|a| - j..], r)
  {
    var s, p := a + (r + t), |a| - j;
    AtPointwise(s, f, j);
    var n := if |f| - p <= |r| then |f| - p else |r|;
    forall q | 0 <= q < n ensures f[p..][q] == r[q] {
      assert s[j + (p + q)] == f[p + q];
    }
    if n == |f| - p {
      assert f[p..] == r[..n];
    } else {
      assert r == f[p..][..n];
    }
  }

  /** Overlapping occurrences give the pattern a border. */
  lemma OverlapIsBorder(s: string, f: string, i: int, j: int)
    requires At(s, f, i) && At(s, f, j) && i < j < i + |f|
    ensures f[..|f| - (j - i)] == f[j - i..]
  {
    var d := j - i;
    assert f[d..] == s[i..i + |f|][d..] == s[j..i + |f|];
    assert f[..|f| - d] == s[j..j + |f|][..|f| - d] == s[j..i + |f|];
  }

  /** Two occurrences of an unbordered pattern are at least its length apart. */
  lemma OccurrencesApart(s: string, f: string, i: int, j: int)
    requires Unbordered(f) && i < j && At(s, f, i) && At(s, f, j)
    ensures i + |f| <= j
  {
    if j - i < |f| {
      OverlapIsBorder(s, f, i, j);
    }
  }

  /** i is the last occurrence of f in a. */
  predicate IsLast(a: string, f: string, i: nat) {
    At(a, f, i) && forall j :: i < j < |a| ==> !At(a, f, j)
  }

  lemma LastInSuffix(a: string, f: string, i: nat, k: nat)
    requires IsLast(a, f, i) && k <= i
    ensures IsLast(a[k..], f, i - k)
  {
    AtDrop(a, f, k, i - k);
    forall j | i - k < j < |a[k..]| ensures !At(a[k..], f, j) {
      AtDrop(a, f, k, j);
    }
  }

  lemma NoneAfterLast(a: string, f: string, i: nat, b: string)
    requires f != [] && IsLast(a, f, i) && b == a[i + |f|..]
    ensures forall j :: 0 <= j < |b| ==> !At(b, f, j)
  {
    forall j | 0 <= j < |b| ensures !At(b, f, j) {
      AtDrop(a, f, i + |f|, j);
    }
  }

  /** The scan can be cut at the last occurrence. */
  lemma {:induction false} SplitAtLast(a: string, f: string, r: string, i: nat)
    requires f != [] && Unbordered(f) && IsLast(a, f, i)
    ensures ReplaceAll(a, f, r) == ReplaceAll(a[..i], f, r) + r + a[i + |f|..]
    decreases |a|
  {
    hide ReplaceAll, Unbordered;
    if i == 0 {
      NoneAfterLast(a, f, 0, a[|f|..]);
      NoOccurrence(a[|f|..], f, r);
      ScanHit(a, f, r);
      ScanShort(a[..0], f, r);
      assert a[..0] + r == r;
    } else {
      var k, head := ScanStep(a, f, r, i);
      hide At, IsLast;
      SplitAtLast(a[k..], f, r, i - k);
      JoinSplit(a, f, r, i, k, head);
    }
  }

  lemma ScanShort(a: string, f: string, r: string)
    requires |a| < |f|
    ensures ReplaceAll(a, f, r) == a
  {}

  /** One turn of the scan, on a and on the part of a before its last occurrence. */
  lemma ScanStep(a: string, f: string, r: string, i: nat) returns (k: nat, head: string)
    requires f != [] && Unbordered(f) && IsLast(a, f, i) && i > 0
    ensures 1 <= k <= i <= i + |f| <= |a| && IsLast(a[k..], f, i - k)
    ensures ReplaceAll(a, f, r) == head + ReplaceAll(a[k..], f, r)
    ensures ReplaceAll(a[..i], f, r) == head + ReplaceAll(a[..i][k..], f, r)
  {
    if At(a, f, 0) {
      OccurrencesApart(a, f, 0, i);
      k, head := |f|, r;
    } else {
      k, head := 1, [a[0]];
    }
    LastInSuffix(a, f, i, k);
    StepOnPrefix(a, f, r, i, k);
  }

  lemma JoinSplit(a: string, f: string, r: string, i: nat, k: nat, head: string)
    requires f != [] && 1 <= k <= i <= i + |f| <= |a|
    requires ReplaceAll(a, f, r) == head + ReplaceAll(a[k..], f, r)
    requires ReplaceAll(a[..i], f, r) == head + ReplaceAll(a[..i][k..], f, r)
    requires ReplaceAll(a[k..], f, r) == ReplaceAll(a[k..][..i - k], f, r) + r + a[k..][i - k + |f|..]
    ensures ReplaceAll(a, f, r) == ReplaceAll(a[..i], f, r) + r + a[i + |f|..]
  {
    hide ReplaceAll;
    SliceTwice(a, k, i, |f|);
    GlueFour(head, ReplaceAll(a[..i][k..], f, r), r, a[i + |f|..]);
  }

  lemma SliceTwice(a: string, k: nat, i: nat, n: nat)
    requires k <= i && i + n <= |a|
    ensures a[k..][..i - k] == a[..i][k..]
    ensures a[k..][i - k + n..] == a[i + n..]
  {}

  lemma GlueFour(head: string, x: string, r: string, y: string)
    ensures head + (x + r + y) == head + x + r + y
  {}

  lemma StepOnPrefix(a: string, f: string, r: string, i: nat, k: nat)
    requires f != [] && 1 <= k <= i <= |a|
    requires if At(a, f, 0) then k == |f| else k == 1
    ensures ReplaceAll(a[..i], f, r) == (if At(a, f, 0) then r else [a[0]]) + ReplaceAll(a[..i][k..], f, r)
  {
    AtTake(a, f, i, 0);
    if i < |f| {
      assert a[..i] == [a[0]] + a[..i][1..];
    }
  }

  lemma SameInside(a: string, t: string, f: string)
    requires NoCross(a, t, f)
    ensures forall j :: 0 <= j < |a| ==> (At(a, f, j) <==> At(a + t, f, j))
  {
    assert (a + t)[..|a|] == a;
    forall j | 0 <= j < |a| ensures At(a, f, j) <==> At(a + t, f, j) {
      AtTake(a + t, f, |a|, j);
    }
  }

  /** When nothing is caught, the backward pass computes the left-to-right replacement. */
  lemma {:induction false} BackIsReplaceAll(a: string, t: string, f: string, r: string)
    requires f != [] && Unbordered(f) && NoCatch(f, r) && NoCross(a, t, f)
    ensures Back(a, t, f, r) == ReplaceAll(a, f, r) + t
    decreases |a|
  {
    var s := a + t;
    var i := LastAt(s, f, |a| - 1);
    hide Back, ReplaceAll, BackHits, Unbordered, NoCatch;
    BackUnfold(a, t, f, r, i);
    SameInside(a, t, f);
    if i < 0 {
      NoOccurrence(a, f, r);
    } else {
      assert IsLast(a, f, i);
      assert i + |f| <= |a|;
      hide At, NoCross, IsLast;
      SplitAtLast(a, f, r, i);
      var rest := a[i + |f|..] + t;
      assert s[i + |f|..] == rest && s[..i] == a[..i];
      ReplacementIsNotCaught(a[..i], r, rest, f);
      BackIsReplaceAll(a[..i], r + rest, f, r);
      GlueTail(ReplaceAll(a[..i], f, r), r, a[i + |f|..], t);
    }
  }

  lemma GlueTail(x: string, r: string, y: string, t: string)
    ensures x + (r + (y + t)) == x + r + y + t
  {}

  // ----- Sufficiency: removing a run of one letter

  /** Removing one copy of a constant pattern from anywhere does not change what is left in the end. */
  lemma {:induction false} RemoveOneCopy(x: string, y: string, f: string)
    requires f != [] && Constant(f)
    ensures ReplaceAll(x + f + y, f, []) == ReplaceAll(x + y, f, [])
    decreases |x|
  {
    hide ReplaceAll, At, Constant;
    var s, s0 := x + f + y, x + y;
    ReplaceTurn(s, f, []);
    if forall q :: 0 <= q < |x| && q < |f| ==> x[q] == f[0] {
      if |x| < |f| {
        RunCopies(x, f, y);
      } else {
        ReplaceTurn(s0, f, []);
        RunIsAt(s, f);
        RunIsAt(s0, f);
        DropBoth(x, f, y, |f|);
        RemoveOneCopy(x[|f|..], y, f);
      }
    } else {
      var q :| 0 <= q < |x| && q < |f| && x[q] != f[0];
      ReplaceTurn(s0, f, []);
      BrokenRun(s, f, q);
      BrokenRun(s0, f, q);
      DropBoth(x, f, y, 1);
      RemoveOneCopy(x[1..], y, f);
    }
  }

  lemma DropBoth(x: string, f: string, y: string, k: nat)
    requires k <= |x|
    ensures (x + f + y)[k..] == x[k..] + f + y && (x + y)[k..] == x[k..] + y
  {}

  /** One turn of the left-to-right scan. */
  lemma ReplaceTurn(s: string, f: string, r: string)
    requires f != [] && s != []
    ensures At(s, f, 0) ==> |f| <= |s| && ReplaceAll(s, f, r) == r + ReplaceAll(s[|f|..], f, r)
    ensures !At(s, f, 0) ==> ReplaceAll(s, f, r) == [s[0]] + ReplaceAll(s[1..], f, r)
  {}

  lemma RunIsAt(s: string, f: string)
    requires f != [] && Constant(f) && |f| <= |s|
    requires forall q :: 0 <= q < |f| ==> s[q] == f[0]
    ensures At(s, f, 0)
  {
    AtPointwise(s, f, 0);
    assert forall q :: 0 <= q < |f| ==> s[0 + q] == f[q];
  }

  lemma BrokenRun(s: string, f: string, q: nat)
    requires f != [] && Constant(f) && q < |f| && q < |s| && s[q] != f[0]
    ensures !At(s, f, 0)
  {
    AtPointwise(s, f, 0);
    assert s[0 + q] != f[q];
  }

  /** Inside a run, it does not matter which copy is removed. */
  lemma RunCopies(x: string, f: string, y: string)
    requires f != [] && Constant(f) && |x| < |f| && forall q :: 0 <= q < |x| ==> x[q] == f[0]
    ensures (x + f + y)[|f|..] == x + y && At(x + f + y, f, 0)
  {
    var s := x + f + y;
    forall q | 0 <= q < |f| ensures s[q] == f[0] {
      if q >= |x| { assert s[q] == f[q - |x|]; }
    }
    RunIsAt(s, f);
    forall q | 0 <= q < |x| ensures s[|f| + q] == x[q] {
      assert s[|f| + q] == f[|f| + q - |x|];
    }
  }

  /** Nothing starts behind the place where the last occurrence was removed. */
  lemma NoneAfterRemoval(s: string, a: string, t: string, f: string, i: nat)
    requires i + |f| <= |s| && f != [] && a == s[..i] && t == s[i + |f|..]
    requires forall j :: i < j < |s| ==> !At(s, f, j)
    ensures forall j :: |a| <= j < |a + t| ==> !At(a + t, f, j)
  {
    var u := a + t;
    assert u[i..] == t;
    forall j | |a| <= j < |u| ensures !At(u, f, j) {
      AtDrop(u, f, i, j - i);
      AtDrop(s, f, i + |f|, j - i);
    }
  }

  lemma {:induction false} BackRemovesRuns(a: string, t: string, f: string)
    requires f != [] && Constant(f)
    requires forall j :: |a| <= j < |a + t| ==> !At(a + t, f, j)
    ensures Back(a, t, f, []) == ReplaceAll(a + t, f, [])
    decreases |a|
  {
    hide Back, ReplaceAll, BackHits;
    var s := a + t;
    var i := LastAt(s, f, |a| - 1);
    BackUnfold(a, t, f, [], i);
    if i < 0 {
      NoOccurrence(s, f, []);
    } else {
      var a', t' := a[..i], s[i + |f|..];
      assert s == a' + f + t';
      RemoveOneCopy(a', t', f);
      assert [] + t' == t';
      NoneAfterRemoval(s, a', t', f, i);
      BackRemovesRuns(a', t', f);
    }
  }

  /** Every safe pair is replaced correctly in every text. */
  lemma SafeIsEnough(s: string, f: string, r: string)
    requires f != [] && Safe(f, r)
    ensures Back(s, [], f, r) == ReplaceAll(s, f, r)
  {
    assert s + [] == s;
    if r == [] && Constant(f) {
      BackRemovesRuns(s, [], f);
    } else {
      BackIsReplaceAll(s, [], f, r);
    }
  }

  // ----- Necessity: a text on which an unsafe pair goes wrong

  lemma BackStep(s: string, f: string, r: string, j: nat)
    requires f != [] && IsLast(s, f, j)
    ensures Back(s, [], f, r) == Back(s[..j], r + s[j + |f|..], f, r)
    ensures BackHits(s, [], f, r) == 1 + BackHits(s[..j], r + s[j + |f|..], f, r)
  {
    assert s + [] == s;
    assert LastAt(s, f, |s| - 1) == j;
  }

  /** After the last occurrence in s is replaced, the pattern reappears at the front: a second hit. */
  lemma TwoHits(s: string, f: string, r: string, j: nat)
    requires f != [] && 0 < j && IsLast(s, f, j)
    requires At(s[..j] + (r + s[j + |f|..]), f, 0)
    ensures BackHits(s, [], f, r) >= 2
  {
    assert s + [] == s;
    assert LastAt(s, f, |s| - 1) == j;
  }

  /** One occurrence, then too little text for another: a single hit. */
  lemma {:induction false} OneHit(s: string, f: string, k: nat)
    requires f != [] && At(s, f, k) && |s| < k + 2 * |f|
    requires forall i :: 0 <= i < k ==> !At(s, f, i)
    ensures Hits(s, f) == 1
  {
    FirstOccurrence(s, f, [], k);
  }

  /** An unbordered pattern whose proper suffix f[p..] is comparable with the replacement. */
  lemma CaughtGoesWrong(f: string, r: string, p: nat) returns (s: string)
    requires Unbordered(f) && 1 <= p < |f| && Comparable(f[p..], r) && r != [] && |r| != |f|
    ensures BackHits(s, [], f, r) > Hits(s, f)
  {
    var tail := if r <= f[p..] then f[p + |r|..] else [];
    s := f[..p] + f + tail;
    assert s[p..p + |f|] == f;
    forall j | 0 <= j < |s| && j != p ensures !At(s, f, j) {
      if At(s, f, j) {
        if j < p { OccurrencesApart(s, f, j, p); } else { OccurrencesApart(s, f, p, j); }
      }
    }
    OneHit(s, f, p);
    var s' := s[..p] + (r + s[p + |f|..]);
    assert s[..p] == f[..p] && s[p + |f|..] == tail;
    if r <= f[p..] {
      assert f[p..] == r + tail;
      assert s' == f;
    } else {
      assert s'[..|f|] == f[..p] + r[..|f| - p] == f;
    }
    assert s'[0..0 + |f|] == f;
    TwoHits(s, f, r, p);
  }

  /** The pattern inserted into itself just before its first change of letter. */
  lemma Inserted(f: string, p: nat, s: string)
    requires 1 <= p < |f| && f[p] != f[0] && forall q :: 0 <= q < p ==> f[q] == f[0]
    requires s == f[..p] + f + f[p..]
    ensures At(s, f, p) && forall j :: 0 <= j < p ==> !At(s, f, j)
    ensures ReplaceAll(s, f, []) == f
  {
    assert s[p..p + |f|] == f;
    forall j | 0 <= j < p ensures !At(s, f, j) {
      AtPointwise(s, f, j);
      AtPointwise(s, f, p);
      assert s[p + j] == f[j] && s[j + p] == s[p + j];
    }
    FirstOccurrence(s, f, [], p);
    assert s[p + |f|..] == f[p..];
    assert s[..p] + [] + f[p..] == f;
  }

  /** Removing a pattern with two different letters: the removal itself can create an occurrence. */
  lemma RemovalGoesWrong(f: string) returns (s: string)
    requires f != [] && !Constant(f)
    ensures Back(s, [], f, []) != ReplaceAll(s, f, [])
  {
    var p := FirstChange(f);
    s := f[..p] + f + f[p..];
    Inserted(f, p, s);
    var j := LastAt(s, f, |s| - 1);
    assert p <= |s| - 1;
    BackStep(s, f, [], j);
    var a', t' := s[..j], [] + s[j + |f|..];
    if a' + t' == f {
      HitsOfBack(a', t', f);
    } else {
      assert |a' + t'| == |f| && (a' + t')[0..0 + |f|] == a' + t';
    }
  }

  lemma HitsOfBack(a: string, t: string, f: string)
    requires f != [] && a != [] && a + t == f
    ensures Back(a, t, f, []) == []
  {
    assert At(f, f, 0) by { assert f[0..0 + |f|] == f; }
    assert Back(a, t, f, []) == Back([], [], f, []);
  }

  /** The first position whose letter differs from the first letter. */
  lemma FirstChange(f: string) returns (p: nat)
    requires f != [] && !Constant(f)
    ensures 1 <= p < |f| && f[p] != f[0] && forall q :: 0 <= q < p ==> f[q] == f[0]
  {
    p := 1;
    while f[p] == f[0]
      invariant 1 <= p < |f| && forall q :: 0 <= q < p ==> f[q] == f[0]
      decreases |f| - p
    {
      p := p + 1;
    }
  }

  // ----- Necessity for bordered patterns: texts with the period of the pattern

  ghost predicate Period(s: string, d: nat) {
    forall x, y :: 0 <= x < y < |s| && y == x + d ==> s[x] == s[y]
  }

  /** Two texts with the same period and the same first letters agree as far as both go. */
  lemma {:induction false} SamePeriod(s: string, f: string, d: nat, n: nat)
    requires d > 0 && Period(s, d) && Period(f, d) && n < |s| && n < |f|
    requires forall q :: 0 <= q < d && q < |s| && q < |f| ==> s[q] == f[q]
    ensures s[n] == f[n]
  {
    if n >= d {
      SamePeriod(s, f, d, n - d);
      assert s[n - d] == s[n] && f[n - d] == f[n];
    }
  }

  lemma SamePeriodPrefix(s: string, f: string, d: nat, n: nat)
    requires d > 0 && Period(s, d) && Period(f, d) && n <= |s| && n <= |f|
    requires forall q :: 0 <= q < d && q < |s| && q < |f| ==> s[q] == f[q]
    ensures s[..n] == f[..n]
  {
    forall q | 0 <= q < n ensures s[q] == f[q] {
      SamePeriod(s, f, d, q);
    }
  }

  lemma BorderIsPeriod(f: string, d: nat)
    requires 1 <= d < |f| && f[..|f| - d] == f[d..]
    ensures Period(f, d)
  {
    forall x, y | 0 <= x < y < |f| && y == x + d ensures f[x] == f[y] {
      assert f[..|f| - d][x] == f[d..][x];
    }
  }

  /** Two copies of a bordered pattern overlapping by the border. */
  lemma TwoCopies(f: string, d: nat, s: string)
    requires 1 <= d < |f| && f[..|f| - d] == f[d..] && s == f + f[|f| - d..]
    ensures At(s, f, 0) && IsLast(s, f, d)
    ensures s[..d] == f[..d] && s[d + |f|..] == [] && s[|f|..] == f[|f| - d..]
  {
    assert s[0..0 + |f|] == f;
    assert s[d..d + |f|] == f[d..] + f[|f| - d..] == f[..|f| - d] + f[|f| - d..] == f;
  }

  /** A text that is u + r and also r + v, with u and v of length d, has period d. */
  lemma ConjugateIsPeriod(w: string, u: string, v: string, r: string)
    requires w == u + r == r + v && |u| == |v|
    ensures Period(w, |u|)
  {
    forall x, y | 0 <= x < y < |w| && y == x + |u| ensures w[x] == w[y] {
      assert w[x] == r[x] && w[y] == r[y - |u|];
    }
  }

  /**
   On that text, either the backward pass already goes wrong, or the replacement is shorter than the
   border and continues the period.
   */
  lemma TwoCopiesAgree(f: string, r: string, d: nat, s: string)
    requires 1 <= d < |f| && f[..|f| - d] == f[d..] && |r| != |f| && s == f + f[|f| - d..]
    requires Back(s, [], f, r) == ReplaceAll(s, f, r)
    ensures d + |r| < |f| && f[..d] + r == f[..d + |r|] == r + f[|f| - d..]
  {
    hide Back, BackHits, ReplaceAll, Hits, LastAt, At, Period;
    BothPassesOnce(f, r, d, s);
    ContinuesPeriod(f, r, d, f[..d] + r);
  }

  /** When the two passes agree on that text, the backward pass replaces once, and u + r is r + v. */
  lemma BothPassesOnce(f: string, r: string, d: nat, s: string)
    requires 1 <= d < |f| && f[..|f| - d] == f[d..] && |r| != |f| && s == f + f[|f| - d..]
    requires Back(s, [], f, r) == ReplaceAll(s, f, r)
    ensures f[..d] + r == r + f[|f| - d..] && !At(f[..d] + r, f, 0)
  {
    hide Back, BackHits, ReplaceAll, Hits, At, LastAt, IsLast;
    var u, v := f[..d], f[|f| - d..];
    TwoCopies(f, d, s);
    OneHit(s, f, 0);
    FirstOccurrence(s, f, r, 0);
    ShortIsKept(v, f, r);
    assert s[..0] + r + v == r + v;
    BackStep(s, f, r, d);
    assert r + [] == r;
    if BackHits(s, [], f, r) != Hits(s, f) { HitsTell(s, f, r); }
    NoMoreHits(u, r, f, r);
  }

  lemma ShortIsKept(s: string, f: string, r: string)
    requires |s| < |f|
    ensures ReplaceAll(s, f, r) == s
  {}

  lemma NoMoreHits(a: string, t: string, f: string, r: string)
    requires f != [] && a != [] && BackHits(a, t, f, r) == 0
    ensures Back(a, t, f, r) == a + t && !At(a + t, f, 0)
  {}

  /** A text u + r that is r + v and does not begin with the pattern is a shorter piece of its period. */
  lemma ContinuesPeriod(f: string, r: string, d: nat, w: string)
    requires 1 <= d < |f| && f[..|f| - d] == f[d..]
    requires w == f[..d] + r == r + f[|f| - d..] && !At(w, f, 0)
    ensures d + |r| < |f| && w == f[..d + |r|]
  {
    hide Period, At;
    ConjugateIsPeriod(w, f[..d], f[|f| - d..], r);
    BorderIsPeriod(f, d);
    var n := if |w| < |f| then |w| else |f|;
    SamePeriodPrefix(w, f, d, n);
    PrefixIsAt(w, f);
  }

  /** The pattern is unchanged by a shift of g = |f| - d - |r|, once it is on one window of length d. */
  lemma {:induction false} ShiftEverywhere(f: string, d: nat, g: nat, from: nat, n: nat)
    requires d > 0 && Period(f, d)
    requires from + g + d <= |f| && n + g < |f|
    requires forall q :: from <= q < from + d ==> f[q] == f[q + g]
    ensures f[n] == f[n + g]
    decreases n < from, if n < from then from - n else n
  {
    if n < from {
      ShiftEverywhere(f, d, g, from, n + d);
      assert f[n] == f[n + d] && f[n + g] == f[n + g + d];
    } else if n >= from + d {
      ShiftEverywhere(f, d, g, from, n - d);
      assert f[n - d] == f[n] && f[n - d + g] == f[n + g];
    }
  }

  /** The second text to try: as long a run of the period as one replacement turns back into the pattern. */
  lemma PeriodicText(f: string, r: string, d: nat, s: string)
    requires 1 <= d < |f| && Period(f, d) && d + |r| < |f|
    requires f[..d] + r == f[..d + |r|] == r + f[|f| - d..]
    requires s == f[..d] + f + f[d + |r|..]
    ensures |s| == 2 * |f| - |r| && Period(s, d)
    ensures forall q :: 0 <= q && q + (|f| - d - |r|) < |f| ==> f[q] == f[q + (|f| - d - |r|)]
  {
    var e, b := d + |r|, |f| - d;
    var g := b - |r|;
    var w := f[..e];
    forall q | |r| <= q < |r| + d ensures f[q] == f[q + g] {
      assert w[q] == f[q];
      assert (r + f[b..])[q] == f[b..][q - |r|] == f[q + g];
    }
    forall q | 0 <= q && q + g < |f| ensures f[q] == f[q + g] {
      ShiftEverywhere(f, d, g, |r|, q);
    }
    forall x, y | 0 <= x < y < |s| && y == x + d ensures s[x] == s[y] {
      var z := x - |f|;
      if x < d {
      } else if y < d + |f| {
        assert s[x] == f[x - d] && s[y] == f[x];
      } else {
        assert s[y] == f[e + z];
        if x < d + |f| {
          assert s[x] == f[x - d];
          assert f[|r| + z] == f[|r| + z + g];
          assert f[|r| + z] == f[|r| + z + d];
        } else {
          assert s[x] == f[e + z - d];
          assert f[e + z - d] == f[e + z];
        }
      }
    }
  }

  lemma {:induction false} PeriodicGoesWrong(f: string, r: string, d: nat) returns (s: string)
    requires 1 <= d < |f| && f[..|f| - d] == f[d..] && r != [] && d + |r| < |f|
    requires f[..d] + r == f[..d + |r|] == r + f[|f| - d..]
    ensures BackHits(s, [], f, r) > Hits(s, f)
  {
    hide Period, Hits, BackHits, At;
    BorderIsPeriod(f, d);
    s := f[..d] + f + f[d + |r|..];
    PeriodicText(f, r, d, s);
    PeriodicFront(f, r, d, s);
    FrontCopy(s, f);
    LastCopy(f, r, d, s, |f| - |r|);
    TwoHits(s, f, r, |f| - |r|);
  }

  lemma PeriodicFront(f: string, r: string, d: nat, s: string)
    requires 1 <= d < |f| && d + |r| < |f| && s == f[..d] + f + f[d + |r|..]
    requires Period(f, d) && Period(s, d)
    ensures |f| <= |s| && s[..|f|] == f
  {
    FirstLetters(f, r, d, s);
    SamePeriodPrefix(s, f, d, |f|);
  }

  lemma FrontCopy(s: string, f: string)
    requires f != [] && |f| <= |s| < 2 * |f| && s[..|f|] == f
    ensures Hits(s, f) == 1
  {
    PrefixIsAt(s, f);
    OneHit(s, f, 0);
  }

  lemma FirstLetters(f: string, r: string, d: nat, s: string)
    requires 1 <= d < |f| && d + |r| < |f| && s == f[..d] + f + f[d + |r|..]
    ensures |s| >= |f| && forall q :: 0 <= q < d ==> s[q] == f[q]
  {}

  lemma LastCopy(f: string, r: string, d: nat, s: string, j: nat)
    requires 1 <= d < |f| && Period(f, d) && d + |r| < |f| && r != []
    requires |s| == 2 * |f| - |r| && Period(s, d) && s[..|f|] == f && j == |f| - |r|
    requires f[..d] + r == f[..d + |r|] == r + f[|f| - d..]
    requires forall q :: 0 <= q && q + (|f| - d - |r|) < |f| ==> f[q] == f[q + (|f| - d - |r|)]
    ensures IsLast(s, f, j)
    ensures At(s[..j] + (r + s[j + |f|..]), f, 0)
  {
    var g := |f| - d - |r|;
    var z := s[j..];
    forall x, y | 0 <= x < y < |z| && y == x + d ensures z[x] == z[y] {
      assert s[j + x] == s[j + y];
    }
    forall q | 0 <= q < d ensures z[q] == f[q] {
      assert s[g + q] == s[g + q + d];
      assert s[..|f|][g + q] == f[g + q];
    }
    SamePeriodPrefix(z, f, d, |f|);
    assert s[j..j + |f|] == f;
    forall q | 0 <= q < |r| ensures r[q] == f[j + q] {
      assert f[..d + |r|][q] == r[q];
      assert f[g + q] == f[g + q + d];
    }
    assert s[..j] == f[..j];
    var s' := s[..j] + (r + s[j + |f|..]);
    assert s' == f;
    PrefixIsAt(s', f);
  }

  // ----- The theorem

  lemma BorderedGoesWrong(f: string, r: string, d: nat) returns (s: string)
    requires 1 <= d < |f| && f[..|f| - d] == f[d..] && r != [] && |r| != |f|
    ensures Back(s, [], f, r) != ReplaceAll(s, f, r)
  {
    s := f + f[|f| - d..];
    if Back(s, [], f, r) == ReplaceAll(s, f, r) {
      TwoCopiesAgree(f, r, d, s);
      s := PeriodicGoesWrong(f, r, d);
      HitsTell(s, f, r);
    }
  }

  /** For every unsafe pair of different lengths there is a text on which the result is wrong. */
  lemma UnsafeGoesWrong(f: string, r: string) returns (s: string)
    requires f != [] && |r| != |f| && !Safe(f, r)
    ensures Back(s, [], f, r) != ReplaceAll(s, f, r)
  {
    if r == [] {
      s := RemovalGoesWrong(f);
    } else if Unbordered(f) {
      var p :| 1 <= p < |f| && Comparable(f[p..], r);
      s := CaughtGoesWrong(f, r, p);
      HitsTell(s, f, r);
    } else {
      var d :| 1 <= d < |f| && f[..|f| - d] == f[d..];
      s := BorderedGoesWrong(f, r, d);
    }
  }

  // ----- How many replacements there are

  /** A suffix has no more hits than the whole, and dropping at most a pattern's length loses at most one. */
  lemma {:induction false} HitsOfSuffix(s: string, f: string, k: nat)
    requires f != [] && k <= |s|
    ensures Hits(s[k..], f) <= Hits(s, f)
    ensures k <= |f| ==> Hits(s, f) <= 1 + Hits(s[k..], f)
    decreases |s|
  {
    hide Hits, At;
    HitsTurn(s, f);
    if k == 0 {
      assert s[0..] == s;
    } else if |s| < |f| {
      HitsShort(s[k..], f);
    } else {
      var n := if At(s, f, 0) then |f| else 1;
      if n <= k {
        assert s[n..][k - n..] == s[k..];
        HitsOfSuffix(s[n..], f, k - n);
      } else {
        assert s[k..][n - k..] == s[n..];
        HitsOfSuffix(s[k..], f, n - k);
      }
    }
  }

  /** One turn of counting. */
  lemma HitsTurn(s: string, f: string)
    requires f != []
    ensures |s| < |f| ==> Hits(s, f) == 0
    ensures |s| >= |f| && At(s, f, 0) ==> Hits(s, f) == 1 + Hits(s[|f|..], f)
    ensures |s| >= |f| && !At(s, f, 0) ==> Hits(s, f) == Hits(s[1..], f)
  {}

  lemma AtBounds(s: string, f: string, i: int)
    ensures At(s, f, i) ==> 0 <= i <= |s| - |f|
  {}

  lemma HitsShort(s: string, f: string)
    requires |s| < |f|
    ensures Hits(s, f) == 0
  {}

  /** An occurrence behind x adds a hit to those in x. */
  lemma {:induction false} HitsAdd(x: string, y: string, f: string)
    requires f != [] && At(y, f, 0)
    ensures Hits(x + y, f) >= Hits(x, f) + 1
    decreases |x|
  {
    hide Hits, At;
    var s := x + y;
    HitsTurn(x, f);
    HitsTurn(s, f);
    AtTake(s, f, |x|, 0);
    assert s[..|x|] == x;
    AtBounds(x, f, 0);
    AtBounds(y, f, 0);
    if |x| < |f| {
      HitsOfSuffix(s, f, |x|);
      assert s[|x|..] == y;
      HitsTurn(y, f);
    } else if At(x, f, 0) {
      assert s[|f|..] == x[|f|..] + y;
      HitsAdd(x[|f|..], y, f);
    } else {
      assert s[1..] == x[1..] + y;
      HitsAdd(x[1..], y, f);
    }
  }

  /** When nothing is caught, the backward pass makes no more replacements than the forward scan counts. */
  lemma {:induction false} BackHitsFit(a: string, t: string, f: string, r: string)
    requires f != [] && NoCatch(f, r) && NoCross(a, t, f)
    ensures BackHits(a, t, f, r) <= Hits(a, f)
    decreases |a|
  {
    hide At, Hits, BackHits, Back, NoCatch, NoCross;
    var s := a + t;
    var i := LastAt(s, f, |a| - 1);
    BackUnfold(a, t, f, r, i);
    if i >= 0 {
      StaysInside(a, t, f, i);
      AtDrop(a, f, i, 0);
      var rest := s[i + |f|..];
      ReplacementIsNotCaught(a[..i], r, rest, f);
      BackHitsFit(a[..i], r + rest, f, r);
      assert a == a[..i] + a[i..];
      HitsAdd(a[..i], a[i..], f);
    }
  }

  lemma StaysInside(a: string, t: string, f: string, i: nat)
    requires NoCross(a, t, f) && i < |a| && At(a + t, f, i)
    ensures i + |f| <= |a| && At(a, f, i) && (a + t)[..i] == a[..i]
  {
    AtTake(a + t, f, |a|, i);
    assert (a + t)[..|a|] == a;
  }

  /** A pattern with a proper suffix that begins the replacement is found once and replaced twice in f[..p] + f. */
  lemma {:induction false} CatchOverruns(f: string, r: string, p: nat) returns (s: string)
    requires 1 <= p < |f| && f[p..] <= r
    ensures s == f[..p] + f && Hits(s, f) == 1 && BackHits(s, [], f, r) >= 2
  {
    s := f[..p] + f;
    assert s[p..p + |f|] == f;
    assert At(s, f, p);
    var k := FirstAt(s, f, p);
    OneHit(s, f, k);
    assert s[..p] == f[..p] && s[p + |f|..] == [];
    var s' := s[..p] + (r + s[p + |f|..]);
    assert f == f[..p] + f[p..];
    assert f <= s';
    PrefixIsAt(s', f);
    TwoHits(s, f, r, p);
  }

  lemma {:induction false} FirstAt(s: string, f: string, p: nat) returns (k: nat)
    requires At(s, f, p)
    ensures k <= p && At(s, f, k) && forall i :: 0 <= i < k ==> !At(s, f, i)
  {
    k := 0;
    while !At(s, f, k)
      invariant k <= p && forall i :: 0 <= i < k ==> !At(s, f, i)
      decreases p - k
    {
      k := k + 1;
    }
  }

  /**
   Growing in place stays within the size computed by the forward scan, on every text, exactly when no
   proper suffix of the pattern begins the replacement or is begun by it.
   */
  lemma GrowthFitsExactly(f: string, r: string)
    requires f != [] && |r| > |f|
    ensures (forall s :: BackHits(s, [], f, r) <= Hits(s, f)) <==> NoCatch(f, r)
  {
    if NoCatch(f, r) {
      forall s ensures BackHits(s, [], f, r) <= Hits(s, f) {
        BackHitsFit(s, [], f, r);
      }
    } else {
      var p :| 1 <= p < |f| && Comparable(f[p..], r);
      var s := CatchOverruns(f, r, p);
      assert !(BackHits(s, [], f, r) <= Hits(s, f));
    }
  }

  /** Replacing "aa" by "abb" in "aaa": one occurrence is counted, and two are replaced. */
  lemma GrowthOverruns()
    ensures Hits("aaa", "aa") == 1 && BackHits("aaa", [], "aa", "abb") >= 2
  {
    var s := CatchOverruns("aa", "abb", 1);
    assert s == "aaa";
  }

  /** For a safe pair the two passes make the same replacements, so the computed size is the final length. */
  lemma SafeHitsAgree(s: string, f: string, r: string)
    requires f != [] && |r| != |f| && Safe(f, r)
    ensures BackHits(s, [], f, r) == Hits(s, f)
    ensures |Back(s, [], f, r)| == |s| + Times(Hits(s, f), |r| - |f|)
  {
    SafeIsEnough(s, f, r);
    if BackHits(s, [], f, r) != Hits(s, f) { HitsTell(s, f, r); }
    BackLength(s, [], f, r);
    assert s + [] == s;
  }

  /**
   `replace` is left-to-right replacement on every text exactly when the lengths are equal or the pair
   is safe.
   */
  lemma {:induction false} ReplaceIsRightExactlyWhenSafe(f: string, r: string)
    requires f != []
    ensures (forall s :: CodeReplace(s, f, r) == ReplaceAll(s, f, r)) <==> |r| == |f| || Safe(f, r)
  {
    if |r| == |f| {
    } else if Safe(f, r) {
      forall s ensures CodeReplace(s, f, r) == ReplaceAll(s, f, r) {
        SafeIsEnough(s, f, r);
      }
    } else {
      var s := UnsafeGoesWrong(f, r);
      assert CodeReplace(s, f, r) != ReplaceAll(s, f, r);
    }
  }
}
