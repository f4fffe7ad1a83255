/**
 * The JavaScript string operations the release tool relies on, on `seq<char>`:
 * `indexOf`, `split` with a one-character separator, and `replace` with a
 * string pattern (first occurrence only, with the `$` rules of the
 * ECMAScript GetSubstitution abstract operation).
 */
module Text {
  import opened Wrappers

  /** `pat` occurs in `s` starting at index `i`. */
  predicate OccursAt(s: string, pat: string, i: nat) {
    i + |pat| <= |s| && s[i..i + |pat|] == pat
  }

  /** `i` is the index of the first occurrence of `pat` in `s`. */
  predicate FirstOccurrence(s: string, pat: string, i: nat) {
    OccursAt(s, pat, i) && forall j :: 0 <= j < i ==> !OccursAt(s, pat, j)
  }

  lemma OccursAtShift(s: string, pat: string, j: nat)
    requires |s| > 0
    ensures OccursAt(s[1..], pat, j) <==> OccursAt(s, pat, j + 1)
  {
    if j + 1 + |pat| <= |s| {
      assert s[1..][j..j + |pat|] == s[j + 1..j + 1 + |pat|];
    }
  }

  /**
   * The first index at or after `from` where `pat` occurs: the internal
   * StringIndexOf that `replace` uses. Unlike the public `indexOf`, `from` is
   * not clamped, so an empty pattern past the end gives `None`.
   */
  function IndexOf(s: string, pat: string, from: nat): (r: Option<nat>)
    ensures r.Some? ==> from <= r.value && OccursAt(s, pat, r.value)
    ensures r.Some? ==> forall j :: from <= j < r.value ==> !OccursAt(s, pat, j)
    ensures r.None? ==> forall j :: from <= j ==> !OccursAt(s, pat, j)
    decreases |s| - from
  {
    if from + |pat| > |s| then None
    else if OccursAt(s, pat, from) then Some(from)
    else IndexOf(s, pat, from + 1)
  }

  /** `parts.join(sep)` for a one-character separator. */
  function Join(parts: seq<string>, sep: char): string
    requires |parts| > 0
  {
    if |parts| == 1 then parts[0] else parts[0] + [sep] + Join(parts[1..], sep)
  }

  /**
   * `s.split(sep)` for a one-character separator: the pieces between the
   * separators, none containing one, and joining them back gives `s`.
   */
  function Split(s: string, sep: char): (parts: seq<string>)
    ensures |parts| > 0
    ensures forall k :: 0 <= k < |parts| ==> sep !in parts[k]
    ensures Join(parts, sep) == s
    decreases |s|
  {
    if s == [] then [""]
    else
      var rest := Split(s[1..], sep);
      assert s == [s[0]] + s[1..];
      if s[0] == sep then
        var r := [""] + rest;
        assert r[1..] == rest;
        r
      else
        var r := [[s[0]] + rest[0]] + rest[1..];
        assert r[1..] == rest[1..];
        r
  }

  /** `split` yields one piece more than there are separators. */
  lemma {:induction false} SplitCount(s: string, sep: char)
    ensures |Split(s, sep)| == multiset(s)[sep] + 1
    decreases |s|
  {
    if s != [] {
      SplitCount(s[1..], sep);
      assert s == [s[0]] + s[1..];
    }
  }

  lemma {:induction false} SplitPrefix(a: string, rest: string, sep: char)
    requires sep !in a
    ensures Split(a + rest, sep) == [a + Split(rest, sep)[0]] + Split(rest, sep)[1..]
    decreases |a|
  {
    if a != [] {
      var S := Split(rest, sep);
      assert (a + rest)[1..] == a[1..] + rest;
      SplitPrefix(a[1..], rest, sep);
      var R := Split(a[1..] + rest, sep);
      assert R == [a[1..] + S[0]] + S[1..];
      assert Split(a + rest, sep) == [[a[0]] + R[0]] + R[1..];
      assert [a[0]] + (a[1..] + S[0]) == a + S[0] by {
        assert a == [a[0]] + a[1..];
      }
    } else {
      assert a + rest == rest;
      assert a + Split(rest, sep)[0] == Split(rest, sep)[0];
    }
  }

  /** Splitting a join of separator-free pieces gives the pieces back. */
  lemma {:induction false} SplitJoin(parts: seq<string>, sep: char)
    requires |parts| > 0
    requires forall k :: 0 <= k < |parts| ==> sep !in parts[k]
    ensures Split(Join(parts, sep), sep) == parts
    decreases |parts|
  {
    if |parts| == 1 {
      SplitPrefix(parts[0], "", sep);
      assert parts[0] + "" == parts[0];
    } else {
      var tail := Join(parts[1..], sep);
      assert forall k :: 0 <= k < |parts[1..]| ==> parts[1..][k] == parts[k + 1];
      SplitJoin(parts[1..], sep);
      assert parts[0] + [sep] + tail == parts[0] + ([sep] + tail);
      SplitPrefix(parts[0], [sep] + tail, sep);
      assert ([sep] + tail)[1..] == tail;
      assert Split([sep] + tail, sep) == [""] + parts[1..];
      assert parts[0] + "" == parts[0];
      assert [parts[0]] + parts[1..] == parts;
    }
  }

  /** Number of occurrences of the non-empty `pat` in `s`. */
  function Occurrences(s: string, pat: string): nat
    requires pat != []
    decreases |s|
  {
    if |s| < |pat| then 0
    else (if OccursAt(s, pat, 0) then 1 else 0) + Occurrences(s[1..], pat)
  }

  /**
   * Occurrences that start inside `pre` only see `pre` and the first
   * `|pat| - 1` characters after it: two continuations that agree there
   * gain the same number of occurrences from `pre`.
   */
  lemma {:induction false} SharedPrefixCount(pre: string, x: string, y: string, pat: string)
    requires pat != [] && |x| >= |pat| - 1 && |y| >= |pat| - 1
    requires x[..|pat| - 1] == y[..|pat| - 1]
    ensures Occurrences(pre + x, pat) - Occurrences(x, pat) == Occurrences(pre + y, pat) - Occurrences(y, pat)
    decreases |pre|
  {
    if pre == [] {
      assert pre + x == x && pre + y == y;
    } else {
      assert (pre + x)[1..] == pre[1..] + x;
      assert (pre + y)[1..] == pre[1..] + y;
      SharedPrefixCount(pre[1..], x, y, pat);
      assert (pre + x)[..|pat|] == (pre + y)[..|pat|] by {
        assert (pre + x)[..|pre| + |pat| - 1] == pre + x[..|pat| - 1];
        assert (pre + y)[..|pre| + |pat| - 1] == pre + y[..|pat| - 1];
      }
    }
  }

  /** A pattern occurs nowhere exactly when `indexOf` finds nothing. */
  lemma {:induction false} OccurrencesZero(s: string, pat: string)
    requires pat != []
    ensures Occurrences(s, pat) == 0 <==> IndexOf(s, pat, 0).None?
    decreases |s|
  {
    if |s| >= |pat| {
      OccurrencesZero(s[1..], pat);
      if Occurrences(s, pat) == 0 {
        forall j: nat ensures !OccursAt(s, pat, j) {
          if j > 0 { OccursAtShift(s, pat, j - 1); }
        }
      } else if !OccursAt(s, pat, 0) {
        var k := IndexOf(s[1..], pat, 0).value;
        OccursAtShift(s, pat, k);
      }
    }
  }

  /**
   * The text that replaces a match of a string pattern: `$$` gives `$`,
   * `$&` the matched text, `` $` `` the text before the match, `$'` the text
   * after it; every other `$` stays as it is (a string pattern has no
   * capture groups).
   */
  function Substitute(rep: string, before: string, matched: string, after: string): (r: string)
    ensures '$' !in rep ==> r == rep
    decreases |rep|
  {
    if rep == [] then []
    else if rep[0] == '$' && |rep| >= 2 && rep[1] in "$&`'" then
      var piece :=
        if rep[1] == '$' then "$"
        else if rep[1] == '&' then matched
        else if rep[1] == '`' then before
        else after;
      piece + Substitute(rep[2..], before, matched, after)
    else
      assert rep == [rep[0]] + rep[1..];
      [rep[0]] + Substitute(rep[1..], before, matched, after)
  }

  /**
   * `s.replace(pat, rep)` with a string pattern: only the first occurrence
   * of `pat` is replaced; without one, `s` is returned unchanged.
   */
  function ReplaceFirst(s: string, pat: string, rep: string): (r: string)
    ensures (forall j :: !OccursAt(s, pat, j)) ==> r == s
    ensures forall i: nat :: FirstOccurrence(s, pat, i) ==>
      r == s[..i] + Substitute(rep, s[..i], pat, s[i + |pat|..]) + s[i + |pat|..]
  {
    match IndexOf(s, pat, 0)
    case None => s
    case Some(i) =>
      assert forall k: nat :: FirstOccurrence(s, pat, k) ==> k == i;
      s[..i] + Substitute(rep, s[..i], pat, s[i + |pat|..]) + s[i + |pat|..]
  }

  /** Around an occurrence at `i`: what comes before it, the pattern, and what comes after. */
  lemma AroundOccurrence(s: string, pat: string, i: nat)
    requires OccursAt(s, pat, i)
    ensures s == s[..i] + (pat + s[i + |pat|..])
  {
    assert s == s[..i] + s[i..i + |pat|] + s[i + |pat|..];
  }

  /**
   * Replacing the first occurrence by a text without `$` that itself starts
   * with the pattern: the text is spliced in at `i`, and the first
   * occurrence is still at `i`.
   */
  lemma ReplaceFirstLeading(s: string, pat: string, rep: string, i: nat)
    requires FirstOccurrence(s, pat, i) && '$' !in rep
    requires |pat| <= |rep| && rep[..|pat|] == pat
    ensures ReplaceFirst(s, pat, rep) == s[..i] + rep + s[i + |pat|..]
    ensures FirstOccurrence(ReplaceFirst(s, pat, rep), pat, i)
  {
    var r := ReplaceFirst(s, pat, rep);
    assert r[..i + |pat|] == s[..i + |pat|] by {
      assert s[..i + |pat|] == s[..i] + s[i..i + |pat|];
    }
    forall j | 0 <= j < i
      ensures !OccursAt(r, pat, j)
    {
      assert !OccursAt(s, pat, j);
      if j + |pat| <= |r| {
        assert r[j..j + |pat|] == r[..i + |pat|][j..j + |pat|];
        assert s[j..j + |pat|] == s[..i + |pat|][j..j + |pat|];
      }
    }
    assert r[i..i + |pat|] == pat;
  }
}
