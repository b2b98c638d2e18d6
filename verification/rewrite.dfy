/**
  The two Ruby string rewrites the library is built on:
  - `String#tr(set, '')`, which deletes every character of a set (`Without`);
  - `String#gsub(pattern, replacement)`, which scans left to right, replaces
    each match of the pattern and resumes right after it (`Gsub`).
  A pattern is represented by a `Matcher`: the length of the match it has at
  the very start of a string, 0 when it has none.
*/
module Rewrite {
  import opened Wrappers

  /** `a` is obtained from `b` by deleting characters; the rest keep their order. */
  predicate IsSubsequence(a: string, b: string)
    decreases |b|
  {
    if |a| == 0 then true
    else if |b| == 0 then false
    else (a[0] == b[0] && IsSubsequence(a[1..], b[1..])) || IsSubsequence(a, b[1..])
  }

  lemma {:induction false} SubsequenceOfSuffix(a: string, b: string, n: nat)
    requires n <= |b| && IsSubsequence(a, b[n..])
    ensures IsSubsequence(a, b)
    decreases n
  {
    if n > 0 {
      assert b[1..][n - 1..] == b[n..];
      SubsequenceOfSuffix(a, b[1..], n - 1);
    } else {
      assert b[0..] == b;
    }
  }

  /** The first position at or after `from` holding `c` (Ruby's `index`). */
  function IndexOf(s: string, c: char, from: nat): (r: Option<nat>)
    decreases |s| - from
    ensures r.Some? ==> from <= r.value < |s| && s[r.value] == c
    ensures r.Some? ==> forall k :: from <= k < r.value ==> s[k] != c
    ensures r.None? ==> forall k :: from <= k < |s| ==> s[k] != c
  {
    if from >= |s| then None
    else if s[from] == c then Some(from)
    else IndexOf(s, c, from + 1)
  }

  // ---------------------------------------------------------------------------
  // String#tr with an empty replacement: character deletion
  // ---------------------------------------------------------------------------

  /** `s` with every character satisfying `drop` deleted. */
  function Without(s: string, drop: char -> bool): (r: string)
    ensures |r| <= |s|
    ensures forall k :: 0 <= k < |r| ==> !drop(r[k])
  {
    if |s| == 0 then ""
    else (if drop(s[0]) then "" else [s[0]]) + Without(s[1..], drop)
  }

  lemma {:induction false} WithoutIsSubsequence(s: string, drop: char -> bool)
    ensures IsSubsequence(Without(s, drop), s)
  {
    if |s| > 0 {
      WithoutIsSubsequence(s[1..], drop);
      var rest := Without(s[1..], drop);
      if drop(s[0]) {
        assert Without(s, drop) == rest;
        SubsequenceOfSuffix(rest, s, 1);
      } else {
        assert Without(s, drop) == [s[0]] + rest;
        assert ([s[0]] + rest)[1..] == rest;
      }
    }
  }

  /** Every character that is not deleted keeps its number of occurrences. */
  lemma {:induction false} WithoutKeepsOthers(s: string, drop: char -> bool)
    ensures forall c :: !drop(c) ==> multiset(Without(s, drop))[c] == multiset(s)[c]
  {
    if |s| > 0 {
      WithoutKeepsOthers(s[1..], drop);
      var head := if drop(s[0]) then "" else [s[0]];
      assert s == [s[0]] + s[1..];
      assert multiset(s) == multiset([s[0]]) + multiset(s[1..]);
      assert multiset(Without(s, drop)) == multiset(head) + multiset(Without(s[1..], drop));
    }
  }

  /** A string with nothing to delete is returned as it is. */
  lemma {:induction false} WithoutNothingToDrop(s: string, drop: char -> bool)
    requires forall k :: 0 <= k < |s| ==> !drop(s[k])
    ensures Without(s, drop) == s
  {
    if |s| > 0 {
      WithoutNothingToDrop(s[1..], drop);
      assert [s[0]] + s[1..] == s;
    }
  }

  lemma WithoutIdempotent(s: string, drop: char -> bool)
    ensures Without(Without(s, drop), drop) == Without(s, drop)
  {
    WithoutNothingToDrop(Without(s, drop), drop);
  }

  /** Deletion is done character by character, so it distributes over concatenation. */
  lemma {:induction false} WithoutConcat(a: string, b: string, drop: char -> bool)
    ensures Without(a + b, drop) == Without(a, drop) + Without(b, drop)
    decreases |a|
  {
    if |a| == 0 {
      assert a + b == b;
    } else {
      assert (a + b)[1..] == a[1..] + b;
      assert (a + b)[0] == a[0];
      WithoutConcat(a[1..], b, drop);
    }
  }

  // ---------------------------------------------------------------------------
  // String#gsub
  // ---------------------------------------------------------------------------

  /** Length of the match a pattern has at the start of a string; 0 means none. */
  type Matcher = string -> nat

  predicate MatchesAt(m: Matcher, t: string) {
    0 < m(t) <= |t|
  }

  /** Left-to-right replacement of every non-overlapping match, as `gsub` does. */
  function Gsub(s: string, m: Matcher, repl: string): string
    decreases |s|
  {
    if |s| == 0 then ""
    else if MatchesAt(m, s) then repl + Gsub(s[m(s)..], m, repl)
    else [s[0]] + Gsub(s[1..], m, repl)
  }

  /** Where the pattern matches nowhere, `gsub` changes nothing. */
  lemma {:induction false} GsubWithoutMatch(s: string, m: Matcher, repl: string)
    requires forall i :: 0 <= i < |s| ==> !MatchesAt(m, s[i..])
    ensures Gsub(s, m, repl) == s
    decreases |s|
  {
    if |s| > 0 {
      assert s[0..] == s;
      forall i | 0 <= i < |s[1..]|
        ensures !MatchesAt(m, s[1..][i..])
      {
        assert s[1..][i..] == s[i + 1..];
      }
      GsubWithoutMatch(s[1..], m, repl);
      assert [s[0]] + s[1..] == s;
    }
  }

  /** A pattern whose every match contains `c` changes nothing in a text without `c`. */
  lemma GsubWithoutNeededChar(s: string, m: Matcher, repl: string, c: char)
    requires forall t :: MatchesAt(m, t) ==> c in t
    requires c !in s
    ensures Gsub(s, m, repl) == s
  {
    forall i | 0 <= i < |s|
      ensures !MatchesAt(m, s[i..])
    {
      assert c !in s[i..] by {
        assert forall k :: 0 <= k < |s[i..]| ==> s[i..][k] == s[i + k];
      }
    }
    GsubWithoutMatch(s, m, repl);
  }

  /** Deleting matches (an empty replacement) leaves a subsequence of the input. */
  lemma {:induction false} GsubDeleteIsSubsequence(s: string, m: Matcher)
    ensures IsSubsequence(Gsub(s, m, ""), s)
    decreases |s|
  {
    if |s| > 0 {
      if MatchesAt(m, s) {
        GsubDeleteIsSubsequence(s[m(s)..], m);
        assert Gsub(s, m, "") == Gsub(s[m(s)..], m, "");
        SubsequenceOfSuffix(Gsub(s[m(s)..], m, ""), s, m(s));
      } else {
        GsubDeleteIsSubsequence(s[1..], m);
        var rest := Gsub(s[1..], m, "");
        assert Gsub(s, m, "") == [s[0]] + rest;
        assert ([s[0]] + rest)[1..] == rest;
      }
    }
  }

  /**
    A character property that holds of the replacement and of every input
    character the pattern does not match at holds of the whole output.
  */
  lemma {:induction false} GsubKeepsProperty(s: string, m: Matcher, repl: string, P: char -> bool)
    requires forall i :: 0 <= i < |s| && !MatchesAt(m, s[i..]) ==> P(s[i])
    requires forall k :: 0 <= k < |repl| ==> P(repl[k])
    ensures forall k :: 0 <= k < |Gsub(s, m, repl)| ==> P(Gsub(s, m, repl)[k])
    decreases |s|
  {
    if |s| > 0 {
      var n := if MatchesAt(m, s) then m(s) else 1;
      forall i | 0 <= i < |s[n..]| && !MatchesAt(m, s[n..][i..])
        ensures P(s[n..][i])
      {
        assert s[n..][i..] == s[n + i..];
      }
      GsubKeepsProperty(s[n..], m, repl, P);
      assert s[0..] == s;
    }
  }

  /**
    As long as the output shows no first character of the replacement, it is
    a verbatim copy of the input: no match was replaced there.
  */
  lemma {:induction false} GsubCopiedPrefix(t: string, m: Matcher, repl: string, k: nat)
    requires |repl| > 0
    requires k <= |Gsub(t, m, repl)|
    requires forall j :: 0 <= j < k ==> Gsub(t, m, repl)[j] != repl[0]
    ensures k <= |t| && Gsub(t, m, repl)[..k] == t[..k]
    decreases k
  {
    if k > 0 {
      var r := Gsub(t, m, repl);
      assert |t| > 0;
      assert r[0] != repl[0];
      assert !MatchesAt(m, t);
      var rest := Gsub(t[1..], m, repl);
      assert r == [t[0]] + rest;
      forall j | 0 <= j < k - 1
        ensures rest[j] != repl[0]
      {
        assert rest[j] == r[j + 1];
      }
      GsubCopiedPrefix(t[1..], m, repl, k - 1);
      assert r[..k] == [t[0]] + rest[..k - 1];
      assert t[..k] == [t[0]] + t[1..][..k - 1];
    }
  }

  // ---------------------------------------------------------------------------
  // Stepping through a scan
  // ---------------------------------------------------------------------------

  /** Every match of `m` starts with `c`. */
  ghost predicate MatchesStartWith(m: Matcher, c: char) {
    forall t :: MatchesAt(m, t) ==> t[0] == c
  }

  /** Text without the character every match starts with is copied as it is. */
  lemma {:induction false} GsubPlainPrefix(a: string, b: string, m: Matcher, repl: string, c: char)
    requires MatchesStartWith(m, c) && c !in a
    ensures Gsub(a + b, m, repl) == a + Gsub(b, m, repl)
    decreases |a|
  {
    if |a| == 0 {
      assert a + b == b;
    } else {
      var s := a + b;
      assert s[0] == a[0];
      assert !MatchesAt(m, s);
      assert s[1..] == a[1..] + b;
      GsubPlainPrefix(a[1..], b, m, repl, c);
      assert a == [a[0]] + a[1..];
    }
  }

  /** A position without a match, then plain text: all of it is copied. */
  lemma GsubCopyThrough(a: string, b: string, m: Matcher, repl: string, c: char)
    requires MatchesStartWith(m, c)
    requires |a| > 0 && !MatchesAt(m, a + b) && c !in a[1..]
    ensures Gsub(a + b, m, repl) == a + Gsub(b, m, repl)
  {
    HeadSplit(a, b);
    GsubCopyStep(a + b, m, repl);
    GsubPlainPrefix(a[1..], b, m, repl, c);
    HeadSplit(a, Gsub(b, m, repl));
  }

  /** Splitting off the first character of a concatenation. */
  lemma HeadSplit(a: string, b: string)
    requires |a| > 0
    ensures (a + b)[0] == a[0] && (a + b)[1..] == a[1..] + b
    ensures [a[0]] + (a[1..] + b) == a + b
  {
    assert a == [a[0]] + a[1..];
  }

  /** Where no match starts, `gsub` copies one character and goes on. */
  lemma GsubCopyStep(s: string, m: Matcher, repl: string)
    requires |s| > 0 && !MatchesAt(m, s)
    ensures Gsub(s, m, repl) == [s[0]] + Gsub(s[1..], m, repl)
  {
  }

  /** A match of exactly `x`, then plain text `a`: `x` is replaced and `a` copied. */
  lemma GsubReplaceThrough(x: string, a: string, b: string, m: Matcher, repl: string, c: char)
    requires MatchesStartWith(m, c)
    requires |x| > 0 && m(x + (a + b)) == |x| && c !in a
    ensures Gsub(x + (a + b), m, repl) == repl + (a + Gsub(b, m, repl))
  {
    assert (x + (a + b))[|x|..] == a + b;
    GsubPlainPrefix(a, b, m, repl, c);
  }
}
