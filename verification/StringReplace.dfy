/**
 `String::replace(find, replace)` on its character buffer: the forward scan that sizes the result, and
 the in-place rewriting, forward when the lengths are equal and backward otherwise.
 */
module StringReplace {
  import opened ReplaceTheory

  const NUL: char := '\0'

  predicate NulFree(s: string) { NUL !in s }

  /** The result, for the early exits too. */
  function Replaced(s: string, find: string, replace: string): string {
    if s == [] || find == [] then s else CodeReplace(s, find, replace)
  }

  class ArduinoString {
    var buffer: array<char>
    var capacity: nat
    var len: nat

    /** `len` characters other than NUL, then a NUL; room for `capacity` characters. */
    ghost predicate Valid()
      reads this, buffer
    {
      && len <= capacity && buffer.Length == capacity + 1
      && buffer[len] == NUL && NulFree(buffer[..len])
    }

    ghost function Text(): (s: string)
      requires Valid()
      reads this, buffer
      ensures |s| == len
    {
      buffer[..len]
    }

    constructor (text: string)
      requires NUL !in text
      ensures Valid() && Text() == text && fresh(buffer)
    {
      capacity, len := |text|, |text|;
      buffer := new char[|text| + 1](i => if 0 <= i < |text| then text[i] else NUL);
      new;
      assert buffer[..len] == text;
    }

    /** `strstr(buffer + from, f)`, as an index or -1. */
    method StrStr(from: nat, f: string) returns (i: int)
      requires Valid() && from <= len && f != []
      ensures i < 0 ==> i == -1 && forall j :: from <= j ==> !At(Text(), f, j)
      ensures i >= 0 ==> from <= i && At(Text(), f, i) && forall j :: from <= j < i ==> !At(Text(), f, j)
    {
      i := from;
      while i + |f| <= len
        invariant from <= i <= len + 1
        invariant forall j :: from <= j < i ==> !At(Text(), f, j)
      {
        if buffer[i..i + |f|] == f {
          assert Text()[i..i + |f|] == buffer[i..i + |f|];
          return;
        }
        assert Text()[i..i + |f|] == buffer[i..i + |f|];
        i := i + 1;
      }
      i := -1;
    }

    /** `lastIndexOf`: repeated forward searches, keeping the last one not beyond `fromIndex`. */
    method LastIndexOf(f: string, fromIndex: nat) returns (found: int)
      requires Valid()
      ensures f == [] ==> found == -1
      ensures f != [] ==> found == LastAt(Text(), f, if fromIndex >= len then len - 1 else fromIndex)
    {
      if |f| == 0 || len == 0 || |f| > len {
        return -1;
      }
      var upto := if fromIndex >= len then len - 1 else fromIndex;
      found := -1;
      var p := 0;
      while p <= upto
        invariant 0 <= p <= len && -1 <= found < p && found <= upto < len
        invariant found >= 0 ==> At(Text(), f, found)
        invariant forall j :: found < j < p && j <= upto ==> !At(Text(), f, j)
      {
        p := StrStr(p, f);
        if p < 0 { break; }
        if p <= upto {
          found := p;
        }
        p := p + 1;
      }
      LastIsUnique(Text(), f, upto, found);
    }

    /** The size the forward scan computes: d more characters for each occurrence it passes. */
    method SizeNeeded(f: string, d: int) returns (size: int)
      requires Valid() && f != []
      ensures size == len + Times(Hits(Text(), f), d)
    {
      hide Hits, ReplaceAll;
      var readFrom := 0;
      size := len;
      ghost var passed := 0;
      assert Text()[0..] == Text();
      while true
        invariant 0 <= readFrom <= len
        invariant size == len + Times(passed, d)
        invariant Hits(Text(), f) == passed + Hits(Text()[readFrom..], f)
        decreases len - readFrom
      {
        var foundAt := StrStr(readFrom, f);
        if foundAt < 0 {
          NoOccurrenceFrom(Text(), f, [], readFrom);
          break;
        }
        NextOccurrence(Text(), f, [], readFrom, foundAt);
        readFrom := foundAt + |f|;
        passed, size := passed + 1, size + d;
      }
    }

    /** `memcpy(buffer + at, replace)`. */
    method MemCpy(at: nat, replace: string)
      requires at + |replace| <= buffer.Length
      modifies buffer
      ensures buffer[..] == old(buffer[..at]) + replace + old(buffer[at + |replace|..])
    {
      forall k | 0 <= k < |replace| {
        buffer[at + k] := replace[k];
      }
    }

    /** `memmove(buffer + dst, buffer + src, n)`: all bytes are read before any is written. */
    method MemMove(dst: nat, src: nat, n: nat)
      requires dst + n <= buffer.Length && src + n <= buffer.Length
      modifies buffer
      ensures buffer[..] == old(buffer[..dst]) + old(buffer[src..src + n]) + old(buffer[dst + n..])
    {
      forall k | dst <= k < dst + n {
        buffer[k] := buffer[k - dst + src];
      }
    }

    /** `memcpy` inside the text. */
    method Overwrite(at: nat, replace: string)
      requires Valid() && at + |replace| <= len && NUL !in replace
      modifies buffer
      ensures Valid()
      ensures Text() == old(Text())[..at] + replace + old(Text())[at + |replace|..]
    {
      ghost var s := Text();
      MemCpy(at, replace);
      assert buffer[..len] == s[..at] + replace + s[at + |replace|..];
    }

    /** The branch for equal lengths: overwrite each occurrence, going forward. */
    method ReplaceForward(find: string, replace: string)
      requires Valid() && find != [] && |find| == |replace| && NUL !in replace
      modifies buffer
      ensures Valid() && Text() == ReplaceAll(old(Text()), find, replace)
    {
      ghost var s := Text();
      var readFrom := 0;
      assert s[0..] == s;
      while true
        invariant 0 <= readFrom <= len && Valid()
        invariant ForwardDone(s, Text(), find, replace, readFrom)
        decreases len - readFrom
      {
        var foundAt := StrStr(readFrom, find);
        SameFrom(Text(), s, find, readFrom);
        ghost var before := Text();
        if foundAt < 0 {
          ForwardEnd(s, before, find, replace, readFrom);
          break;
        }
        Overwrite(foundAt, replace);
        ForwardStep(s, before, Text(), find, replace, readFrom, foundAt);
        readFrom := foundAt + |replace|;
      }
    }

    /** One backward replacement: shift the tail, restore the terminator, copy the new text in. */
    method Splice(index: nat, gap: nat, replace: string)
      requires Valid() && index + gap <= len && NUL !in replace
      requires len + |replace| - gap <= capacity
      modifies `len, buffer
      ensures Valid()
      ensures Text() == old(Text())[..index] + replace + old(Text())[index + gap..]
    {
      hide NulFree;
      Rearrange(index, gap, replace);
      len := len + |replace| - gap;
    }

    /** The buffer of the spliced text, before the length is set. */
    method Rearrange(index: nat, gap: nat, replace: string)
      requires Valid() && index + gap <= len && NUL !in replace
      requires len + |replace| - gap <= capacity
      modifies buffer
      ensures IsSpliced(old(buffer[..]), buffer[..], len, len + |replace| - gap, index, gap, replace)
    {
      hide Moved, NulFree, IsSpliced;
      ghost var s := buffer[..];
      assert NulFree(s[..len]);
      MoveAndCopy(index + gap, index + |replace|, len - (index + gap), index, replace);
      assert Moved(s, buffer[..], index + gap, index + |replace|, len - (index + gap), index, replace);
      Spliced(s, buffer[..], len, len + |replace| - gap, index, gap, replace);
    }

    /** The moves in the buffer, with the terminator written in between. */
    method MoveAndCopy(src: nat, dst: nat, n: nat, index: nat, replace: string)
      requires src + n < buffer.Length && dst + n < buffer.Length && dst == index + |replace|
      modifies buffer
      ensures Moved(old(buffer[..]), buffer[..], src, dst, n, index, replace)
    {
      MemMove(dst, src, n);
      ghost var moved := buffer[..];
      buffer[dst + n] := NUL;
      assert buffer[..] == moved[dst + n := NUL];
      MemCpy(index, replace);
    }

    /** The backward loop, shared by the branches for shorter and longer replacements. */
    method ReplaceBackward(find: string, replace: string)
      requires Valid() && find != [] && |find| != |replace| && NUL !in replace && len > 0
      requires len + Times(BackHits(Text(), [], find, replace), |replace| - |find|) <= capacity
      modifies `len, buffer
      ensures Valid() && Text() == Back(old(Text()), [], find, replace)
    {
      hide Back, BackHits, At;
      ghost var s, d := Text(), |replace| - |find|;
      ghost var a, t := s, [];
      var index := len - 1;
      assert a + t == s;
      while index >= 0
        invariant Valid() && a + t == Text() && |a| == index + 1
        invariant Back(a, t, find, replace) == Back(s, [], find, replace)
        invariant len + Times(BackHits(a, t, find, replace), d) <= capacity
        decreases index
      {
        var i := LastIndexOf(find, index);
        BackUnfold(a, t, find, replace, i);
        if i < 0 { break; }
        ghost var text := Text();
        TimesBound(BackHits(a[..i], replace + text[i + |find|..], find, replace), d);
        Splice(i, |find|, replace);
        a, t := a[..i], replace + text[i + |find|..];
        assert text[..i] == a;
        assert a + t == Text();
        index := i - 1;
      }
      if index < 0 { BackUnfold(a, t, find, replace, -1); }
    }

    /** What the backward pass leaves fits the buffer there is, or the one that the forward scan asks for. */
    ghost predicate FitsAnyway(find: string, replace: string)
      reads this, buffer
      requires Valid() && find != []
    {
      |Back(Text(), [], find, replace)| <= capacity
      || |Back(Text(), [], find, replace)| <= |ReplaceAll(Text(), find, replace)|
    }

    /**
     `replace`: the capacity is grown to the size the forward scan computes. A longer replacement stays
     within it on every text exactly for the pairs of `NoCatch`; any other pair must happen to fit.
     */
    method Replace(find: string, replace: string)
      requires Valid() && NUL !in find && NUL !in replace
      requires |replace| > |find| && find != [] ==> NoCatch(find, replace) || FitsAnyway(find, replace)
      modifies this, buffer
      ensures Valid()
      ensures Text() == Replaced(old(Text()), find, replace)
      ensures find != [] && (|find| == |replace| || Safe(find, replace)) ==>
        Text() == ReplaceAll(old(Text()), find, replace)
    {
      hide Back, BackHits, ReplaceAll, Hits, Safe, NoCatch;
      if find != [] && Safe(find, replace) {
        SafeIsEnough(Text(), find, replace);
      }
      if find != [] && len == 0 { NoOccurrence(Text(), find, replace); }
      if len == 0 || |find| == 0 { return; }
      var diff := |replace| - |find|;
      if diff == 0 {
        ReplaceForward(find, replace);
        return;
      }
      var size := SizeNeeded(find, diff);
      NoHitsNoBackHits(Text(), find, replace);
      TimesBound(Hits(Text(), find), diff);
      if size == len { return; }
      if diff > 0 {
        GrowthBound(Text(), find, replace);
        if size > capacity {
          ChangeBuffer(size);
        }
      } else {
        TimesBound(BackHits(Text(), [], find, replace), diff);
      }
      ReplaceBackward(find, replace);
    }

    /** `changeBuffer`: reallocation keeps the text. */
    method ChangeBuffer(size: nat)
      requires Valid() && size >= len
      modifies `buffer, `capacity
      ensures Valid() && Text() == old(Text()) && len == old(len) && capacity == size && fresh(buffer)
    {
      var old_ := buffer;
      var n := len;
      buffer := new char[size + 1](i requires 0 <= i reads old_ => if i <= n && i < old_.Length then old_[i] else NUL);
      capacity := size;
      assert buffer[..len] == old_[..len];
    }
  }

  lemma {:induction false} TimesBound(n: nat, d: int)
    ensures d > 0 ==> Times(n, d) >= n && (n > 0 ==> Times(n, d) >= d)
    ensures d < 0 ==> Times(n, d) <= 0 && (n > 0 ==> Times(n, d) < 0)
  {
    if n > 0 { TimesBound(n - 1, d); }
  }

  /** The lengths in terms of the replacements made, and the bound that a pair without catch guarantees. */
  lemma GrowthBound(s: string, f: string, r: string)
    requires f != [] && |r| > |f|
    ensures |ReplaceAll(s, f, r)| == |s| + Times(Hits(s, f), |r| - |f|)
    ensures |Back(s, [], f, r)| == |s| + Times(BackHits(s, [], f, r), |r| - |f|)
    ensures NoCatch(f, r) ==> |Back(s, [], f, r)| <= |ReplaceAll(s, f, r)|
  {
    hide Back, BackHits, ReplaceAll, Hits, NoCatch, Times;
    ReplaceAllLength(s, f, r);
    BackLength(s, [], f, r);
    assert s + [] == s;
    if NoCatch(f, r) {
      GrowthFitsExactly(f, r);
      TimesMono(BackHits(s, [], f, r), Hits(s, f), |r| - |f|);
    }
  }

  lemma TimesMono(m: nat, n: nat, d: int)
    requires m <= n && d > 0
    ensures Times(m, d) <= Times(n, d)
  {
    if m < n { TimesTell(m, n, d); }
  }

  /** If the forward scan finds nothing, neither does the backward pass. */
  lemma NoHitsNoBackHits(s: string, f: string, r: string)
    requires f != []
    ensures Hits(s, f) == 0 ==> Back(s, [], f, r) == s && BackHits(s, [], f, r) == 0
  {
    assert s + [] == s;
    var i := LastAt(s, f, |s| - 1);
    if i >= 0 {
      SomeHit(s, f, i);
    }
  }

  lemma {:induction false} SomeHit(s: string, f: string, i: nat)
    requires f != [] && At(s, f, i)
    ensures Hits(s, f) > 0
  {
    if !At(s, f, 0) {
      AtDrop(s, f, 1, i - 1);
      SomeHit(s[1..], f, i - 1);
    }
  }

  /** What the shift and the copy leave in the buffer. */
  /** s' is s with its n characters at src moved to dst, a NUL behind them, and r in front of them. */
  ghost predicate Moved(s: string, s': string, src: nat, dst: nat, n: nat, index: nat, r: string) {
    && src + n <= |s| && dst + n < |s| && dst == index + |r|
    && var moved := (s[..dst] + s[src..src + n] + s[dst + n..])[dst + n := NUL];
    s' == moved[..index] + r + moved[dst..]
  }

  /** The text of s' is that of s with r in place of the `gap` characters at index. */
  ghost predicate IsSpliced(s: string, s': string, len: nat, len': nat, index: nat, gap: nat, r: string) {
    && len <= |s| && index + gap <= len && len' < |s'| == |s| && s'[len'] == NUL && NulFree(s'[..len'])
    && s'[..len'] == s[..len][..index] + r + s[..len][index + gap..]
  }

  lemma {:induction false} Spliced(s: string, s': string, len: nat, len': nat, index: nat, gap: nat, r: string)
    requires len < |s| && index + gap <= len && len' == len + |r| - gap < |s|
    requires Moved(s, s', index + gap, index + |r|, len - (index + gap), index, r)
    requires NulFree(s[..len]) && NUL !in r
    ensures IsSpliced(s, s', len, len', index, gap, r)
  {
    var front, tail := s[..index], s[index + gap..len];
    var moved := s[..index + |r|] + tail + s[len'..];
    assert s[..len][..index] == front && s[..len][index + gap..] == tail;
    assert moved[len' := NUL][..index] == front;
    assert moved[len' := NUL][index + |r|..] == tail + [NUL] + s[len' + 1..];
    assert s' == front + r + tail + ([NUL] + s[len' + 1..]);
    assert s'[..len'] == front + r + tail;
    assert forall k :: 0 <= k < |front| ==> front[k] == s[..len][k];
    assert forall k :: 0 <= k < |tail| ==> tail[k] == s[..len][index + gap + k];
    assert NUL !in front && NUL !in tail;
  }

  /** Where two texts agree, so do their occurrences. */
  lemma SameFrom(s: string, t: string, f: string, from: nat)
    requires from <= |s| && from <= |t| && s[from..] == t[from..]
    ensures forall j :: from <= j ==> (At(s, f, j) <==> At(t, f, j))
  {
    forall j | from <= j ensures At(s, f, j) <==> At(t, f, j) {
      AtDrop(s, f, from, j - from);
      AtDrop(t, f, from, j - from);
    }
  }

  /** Forward replacement of s has reached `from`: t is rewritten before it and untouched after it. */
  ghost predicate ForwardDone(s: string, t: string, f: string, r: string, from: nat) {
    && f != [] && from <= |s| == |t| && t[from..] == s[from..]
    && ReplaceAll(s, f, r) == t[..from] + ReplaceAll(s[from..], f, r)
  }

  lemma ForwardEnd(s: string, t: string, f: string, r: string, from: nat)
    requires ForwardDone(s, t, f, r, from) && forall j :: from <= j ==> !At(s, f, j)
    ensures ReplaceAll(s, f, r) == t
  {
    NoOccurrenceFrom(s, f, r, from);
    assert t == t[..from] + t[from..];
  }

  lemma ForwardStep(s: string, t: string, t': string, f: string, r: string, from: nat, k: nat)
    requires ForwardDone(s, t, f, r, from) && |f| == |r|
    requires from <= k && At(s, f, k) && forall j :: from <= j < k ==> !At(s, f, j)
    requires t' == t[..k] + r + t[k + |r|..]
    ensures ForwardDone(s, t', f, r, k + |r|)
  {
    hide ReplaceAll, Hits;
    NextOccurrence(s, f, r, from, k);
    Pieces(s, t, t', r, from, k);
    Regroup(ReplaceAll(s, f, r), t[..from], s[from..k], r, ReplaceAll(s[k + |f|..], f, r), t'[..k + |r|]);
  }

  lemma Regroup(whole: string, p: string, q: string, r: string, x: string, front: string)
    requires whole == p + (q + r + x) && front == p + q + r
    ensures whole == front + x
  {}

  lemma Pieces(s: string, t: string, t': string, r: string, from: nat, k: nat)
    requires |s| == |t| && from <= k && k + |r| <= |s| && t[from..] == s[from..]
    requires t' == t[..k] + r + t[k + |r|..]
    ensures t'[..k + |r|] == t[..from] + s[from..k] + r && t'[k + |r|..] == s[k + |r|..]
  {
    assert t[..k] == t[..from] + s[from..k] by {
      assert t[from..][..k - from] == s[from..][..k - from];
    }
    assert t[k + |r|..] == t[from..][k + |r| - from..] == s[k + |r|..];
  }

  lemma LastIsUnique(s: string, f: string, upto: int, found: int)
    requires -1 <= found <= upto && (found >= 0 ==> At(s, f, found))
    requires forall j :: found < j <= upto ==> !At(s, f, j)
    ensures found == LastAt(s, f, upto)
  {}
}
