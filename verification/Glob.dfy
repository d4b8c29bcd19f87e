/**
 match_pattern_ci of tools/nmo-inspect.c: the recursive matcher behind --name.
 Its language is given declaratively below; the matcher accepts as soon as the
 pattern is exhausted, so it is anchored at the start of the value only.
 */
module Glob {
  import opened CStrings

  const STAR: Char := 42
  const QUESTION: Char := 63

  /** The whole of value is in the language of the pattern. */
  ghost predicate Matches(pattern: CString, value: CString)
    decreases |pattern|
  {
    if pattern == [] then value == []
    else if pattern[0] == STAR then exists k :: 0 <= k <= |value| && Matches(pattern[1..], value[k..])
    else
      && value != []
      && (pattern[0] == QUESTION || ToLower(pattern[0]) == ToLower(value[0]))
      && Matches(pattern[1..], value[1..])
  }

  ghost predicate MatchesPrefix(pattern: CString, value: CString) {
    exists k :: 0 <= k <= |value| && Matches(pattern, value[..k])
  }

  lemma PrefixOfEmptyPattern(value: CString)
    ensures MatchesPrefix([], value)
  {
    assert Matches([], value[..0]);
  }

  lemma PrefixStep(pattern: CString, value: CString)
    requires pattern != [] && pattern[0] != STAR
    ensures MatchesPrefix(pattern, value) <==>
      && value != []
      && (pattern[0] == QUESTION || ToLower(pattern[0]) == ToLower(value[0]))
      && MatchesPrefix(pattern[1..], value[1..])
  {
    if MatchesPrefix(pattern, value) {
      var k :| 0 <= k <= |value| && Matches(pattern, value[..k]);
      assert value[..k][1..] == value[1..][..k - 1];
    }
    if value != [] && MatchesPrefix(pattern[1..], value[1..]) {
      var k :| 0 <= k <= |value[1..]| && Matches(pattern[1..], value[1..][..k]);
      assert value[..k + 1][1..] == value[1..][..k];
      if pattern[0] == QUESTION || ToLower(pattern[0]) == ToLower(value[0]) {
        assert Matches(pattern, value[..k + 1]);
      }
    }
  }

  lemma PrefixAfterStar(pattern: CString, value: CString)
    requires pattern != [] && pattern[0] == STAR
    ensures MatchesPrefix(pattern, value) <==>
      exists i :: 0 <= i <= |value| && MatchesPrefix(pattern[1..], value[i..])
  {
    if MatchesPrefix(pattern, value) {
      var k :| 0 <= k <= |value| && Matches(pattern, value[..k]);
      var i :| 0 <= i <= k && Matches(pattern[1..], value[..k][i..]);
      assert value[..k][i..] == value[i..][..k - i];
      assert MatchesPrefix(pattern[1..], value[i..]);
    }
    if i :| 0 <= i <= |value| && MatchesPrefix(pattern[1..], value[i..]) {
      var k :| 0 <= k <= |value[i..]| && Matches(pattern[1..], value[i..][..k]);
      assert value[..i + k][i..] == value[i..][..k];
      assert Matches(pattern, value[..i + k]);
    }
  }

  /** A null pattern matches everything; a null value stands for the empty string. */
  method MatchPatternCi(pattern: Option<CString>, value: Option<CString>) returns (matched: bool)
    ensures matched <==>
      (pattern == None || MatchesPrefix(pattern.value, if value == None then [] else value.value))
  {
    if pattern == None {
      return true;
    }
    matched := MatchFrom(pattern.value, if value == None then [] else value.value);
  }

  method MatchFrom(pattern: CString, value: CString) returns (matched: bool)
    ensures matched <==> MatchesPrefix(pattern, value)
    decreases |pattern|
  {
    if pattern == [] {
      PrefixOfEmptyPattern(value);
      return true;
    }
    var pc := pattern[0];
    if pc == STAR {
      PrefixAfterStar(pattern, value);
      var rest := pattern[1..];
      if rest == [] {
        PrefixOfEmptyPattern(value[0..]);
        return true;
      }
      var i := 0;
      while i < |value|
        invariant 0 <= i <= |value|
        invariant forall j :: 0 <= j < i ==> !MatchesPrefix(rest, value[j..])
      {
        var found := MatchFrom(rest, value[i..]);
        if found {
          return true;
        }
        i := i + 1;
      }
      matched := MatchFrom(rest, value[i..]);
      return;
    }
    PrefixStep(pattern, value);
    if pc == QUESTION {
      if value == [] {
        return false;
      }
      matched := MatchFrom(pattern[1..], value[1..]);
      return;
    }
    // At the end of the value the source compares with the terminator, which no pattern byte equals.
    if value == [] || ToLower(pc) != ToLower(value[0]) {
      return false;
    }
    matched := MatchFrom(pattern[1..], value[1..]);
  }

  /** The matcher accepts a value exactly when the whole value matches the pattern followed by a star. */
  lemma {:induction false} PrefixIsStarAppended(pattern: CString, value: CString)
    ensures MatchesPrefix(pattern, value) <==> Matches(pattern + [STAR], value)
    decreases |pattern|
  {
    var p := pattern + [STAR];
    if pattern == [] {
      PrefixOfEmptyPattern(value);
      assert p[1..] == [] && Matches(p[1..], value[|value|..]);
    } else {
      assert p[1..] == pattern[1..] + [STAR];
      if pattern[0] == STAR {
        PrefixAfterStar(pattern, value);
        forall i | 0 <= i <= |value|
          ensures MatchesPrefix(pattern[1..], value[i..]) <==> Matches(p[1..], value[i..])
        {
          PrefixIsStarAppended(pattern[1..], value[i..]);
        }
      } else {
        PrefixStep(pattern, value);
        if value != [] {
          PrefixIsStarAppended(pattern[1..], value[1..]);
        }
      }
    }
  }

  // What the language is, star by star: between stars see StarFreeIsPositional.

  ghost predicate Around(before: CString, after: CString, value: CString, i: nat, j: nat) {
    i <= j <= |value| && Matches(before, value[..i]) && Matches(after, value[j..])
  }

  /** A star stands for any string: what matches before it may end anywhere, what matches after it may begin anywhere behind. */
  lemma StarSplits(before: CString, after: CString, value: CString)
    ensures Matches(before + [STAR] + after, value) <==> exists i: nat, j: nat :: Around(before, after, value, i, j)
  {
    if Matches(before + [STAR] + after, value) {
      var i, j := StarFound(before, after, value);
    }
    if i: nat, j: nat :| Around(before, after, value, i, j) {
      StarFilled(before, after, value, i, j);
    }
  }

  lemma {:induction false} StarFound(before: CString, after: CString, value: CString) returns (i: nat, j: nat)
    requires Matches(before + [STAR] + after, value)
    ensures Around(before, after, value, i, j)
    decreases |before|
  {
    var pattern := before + [STAR] + after;
    if before == [] {
      assert pattern[1..] == after;
      i := 0;
      j :| 0 <= j <= |value| && Matches(after, value[j..]);
      assert Matches([], value[..0]);
    } else {
      assert pattern[1..] == before[1..] + [STAR] + after;
      var k: nat := 1;
      if before[0] == STAR {
        k :| 0 <= k <= |value| && Matches(pattern[1..], value[k..]);
      }
      i, j := StarFound(before[1..], after, value[k..]);
      AroundLater(before, after, value, k, i, j);
      i, j := k + i, k + j;
    }
  }

  lemma AroundLater(before: CString, after: CString, value: CString, k: nat, i: nat, j: nat)
    requires before != [] && k <= |value| && Around(before[1..], after, value[k..], i, j)
    requires before[0] != STAR ==> k == 1 && (before[0] == QUESTION || ToLower(before[0]) == ToLower(value[0]))
    ensures Around(before, after, value, k + i, k + j)
  {
    assert value[..k + i][k..] == value[k..][..i] && value[k..][j..] == value[k + j..];
  }

  lemma {:induction false} StarFilled(before: CString, after: CString, value: CString, i: nat, j: nat)
    requires Around(before, after, value, i, j)
    ensures Matches(before + [STAR] + after, value)
    decreases |before|
  {
    var pattern := before + [STAR] + after;
    if before == [] {
      assert pattern[1..] == after;
    } else {
      assert pattern[1..] == before[1..] + [STAR] + after;
      if before[0] == STAR {
        var k :| 0 <= k <= i && Matches(before[1..], value[..i][k..]);
        assert value[..i][k..] == value[k..][..i - k] && value[k..][j - k..] == value[j..];
        StarFilled(before[1..], after, value[k..], i - k, j - k);
      } else {
        assert value[..i][1..] == value[1..][..i - 1] && value[1..][j - 1..] == value[j..];
        StarFilled(before[1..], after, value[1..], i - 1, j - 1);
      }
    }
  }

  // When is anchoring at the start only the same as matching the whole value?

  /** Some star of the pattern is followed by question marks only. */
  predicate OpenEnded(pattern: CString) {
    exists i :: 0 <= i < |pattern| && pattern[i] == STAR && OnlyQuestions(pattern[i + 1..])
  }

  predicate OnlyQuestions(pattern: CString) {
    forall i :: 0 <= i < |pattern| ==> pattern[i] == QUESTION
  }

  predicate StarFree(pattern: CString) {
    forall i :: 0 <= i < |pattern| ==> pattern[i] != STAR
  }

  lemma {:induction false} StarFreeIsPositional(pattern: CString, value: CString)
    requires StarFree(pattern)
    ensures Matches(pattern, value) <==>
      && |value| == |pattern|
      && forall i :: 0 <= i < |pattern| ==> pattern[i] == QUESTION || ToLower(pattern[i]) == ToLower(value[i])
    decreases |pattern|
  {
    if pattern != [] && value != [] {
      var p, v := pattern[1..], value[1..];
      assert forall i :: 0 <= i < |p| ==> p[i] == pattern[i + 1];
      StarFreeIsPositional(p, v);
      assert forall i :: 0 < i < |pattern| ==> pattern[i] == p[i - 1];
    }
  }

  lemma {:induction false} OpenEndedExtends(pattern: CString, value: CString, extra: CString)
    requires OpenEnded(pattern) && Matches(pattern, value)
    ensures Matches(pattern, value + extra)
    decreases |pattern|
  {
    var i :| 0 <= i < |pattern| && pattern[i] == STAR && OnlyQuestions(pattern[i + 1..]);
    var rest := pattern[1..];
    if i > 0 {
      assert rest[i - 1] == STAR && rest[i..] == pattern[i + 1..];
      assert OpenEnded(rest);
    }
    if pattern[0] == STAR {
      var k :| 0 <= k <= |value| && Matches(rest, value[k..]);
      if i > 0 {
        OpenEndedExtends(rest, value[k..], extra);
        assert (value + extra)[k..] == value[k..] + extra;
      } else {
        StarFreeIsPositional(rest, value[k..]);
        StarFreeIsPositional(rest, (value + extra)[k + |extra|..]);
      }
    } else {
      OpenEndedExtends(rest, value[1..], extra);
      assert (value + extra)[1..] == value[1..] + extra;
    }
  }

  /** The star-free tail of a pattern governs the tail of every value it matches. */
  lemma {:induction false} TailMatches(pattern: CString, i: nat, value: CString)
    requires i <= |pattern| && StarFree(pattern[i..]) && Matches(pattern, value)
    ensures |pattern| - i <= |value|
    ensures Matches(pattern[i..], value[|value| - (|pattern| - i)..])
    decreases |pattern|
  {
    if i == 0 {
      assert pattern[0..] == pattern;
      StarFreeIsPositional(pattern, value);
      assert value[0..] == value;
    } else {
      var rest := pattern[1..];
      assert rest[i - 1..] == pattern[i..];
      var k :| 0 <= k <= |value| && Matches(rest, value[k..]);
      TailMatches(rest, i - 1, value[k..]);
      assert value[k..][|value| - k - (|pattern| - i)..] == value[|value| - (|pattern| - i)..];
    }
  }

  /** A value the pattern matches: stars become empty, question marks and literals stand for themselves. */
  function Sample(pattern: CString): CString
    decreases |pattern|
  {
    if pattern == [] then []
    else if pattern[0] == STAR then Sample(pattern[1..])
    else [pattern[0]] + Sample(pattern[1..])
  }

  lemma {:induction false} SampleMatches(pattern: CString)
    ensures Matches(pattern, Sample(pattern))
    decreases |pattern|
  {
    if pattern != [] {
      SampleMatches(pattern[1..]);
      var s := Sample(pattern);
      if pattern[0] == STAR {
        assert s[0..] == s;
      } else {
        assert s[1..] == Sample(pattern[1..]);
      }
    }
  }

  function LastStar(pattern: CString): (i: nat)
    requires !StarFree(pattern)
    ensures i < |pattern| && pattern[i] == STAR && StarFree(pattern[i + 1..])
    decreases |pattern|
  {
    var n := |pattern| - 1;
    if pattern[n] == STAR then n
    else
      assert forall j :: 0 <= j < |pattern| && pattern[j] == STAR ==> j < n && pattern[..n][j] == STAR;
      var i := LastStar(pattern[..n]);
      assert forall j :: i < j < n ==> pattern[j] == pattern[..n][i + 1..][j - i - 1];
      i
  }

  /** A value a pattern that is not open-ended accepts as a prefix but does not match whole. */
  lemma OverreachingValue(pattern: CString) returns (value: CString)
    requires !OpenEnded(pattern)
    ensures MatchesPrefix(pattern, value) && !Matches(pattern, value)
  {
    hide Matches, Sample, OpenEnded;
    var sample := Sample(pattern);
    SampleMatches(pattern);
    var extra: CString;
    if StarFree(pattern) {
      extra := [1];
      hide StarFree;
      StarFreeIsPositional(pattern, sample);
      StarFreeIsPositional(pattern, sample + extra);
    } else {
      extra := OverreachingTail(pattern, sample);
    }
    value := sample + extra;
    assert value[..|sample|] == sample;
  }

  lemma OverreachingTail(pattern: CString, sample: CString) returns (extra: CString)
    requires !OpenEnded(pattern) && !StarFree(pattern)
    ensures !Matches(pattern, sample + extra)
  {
    var i := LastStar(pattern);
    var tail := pattern[i + 1..];
    assert !OnlyQuestions(tail);
    var d :| 0 <= d < |tail| && tail[d] != QUESTION;
    var c: Char := if tail[d] == 1 then 2 else 1;
    extra := seq(|tail|, _ => c);
    hide Matches, StarFree, OpenEnded;
    if Matches(pattern, sample + extra) {
      TailMatches(pattern, i + 1, sample + extra);
      assert (sample + extra)[|sample|..] == extra;
      StarFreeIsPositional(tail, extra);
      assert false;
    }
  }

  /**
   Filtering by prefix agrees with filtering by the whole value, for every value,
   exactly when the pattern is open-ended; "a", for one, also accepts "ab".
   */
  lemma PrefixIsWholeMatch(pattern: CString)
    ensures (forall value :: MatchesPrefix(pattern, value) <==> Matches(pattern, value)) <==> OpenEnded(pattern)
  {
    if OpenEnded(pattern) {
      forall value
        ensures MatchesPrefix(pattern, value) <==> Matches(pattern, value)
      {
        if Matches(pattern, value) {
          assert value[..|value|] == value;
        }
        if k :| 0 <= k <= |value| && Matches(pattern, value[..k]) {
          OpenEndedExtends(pattern, value[..k], value[k..]);
          assert value[..k] + value[k..] == value;
        }
      }
    } else {
      var value := OverreachingValue(pattern);
    }
  }
}
