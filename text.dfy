/**
 * The handful of Python string operations the scraper relies on:
 * `startswith`, the `in` operator on strings, `replace(pat, "")`,
 * ASCII `lower()` and the code-point order used by `sorted`.
 */
module Text {

  /** Python's `s.startswith(prefix)`. */
  predicate StartsWith(s: string, prefix: string)
  {
    |prefix| <= |s| && s[..|prefix|] == prefix
  }

  /** `s` starts with `prefix` exactly when `s` is `prefix` followed by some rest. */
  lemma StartsWithIffConcat(s: string, prefix: string)
    ensures StartsWith(s, prefix) <==> exists rest :: s == prefix + rest
  {
    if StartsWith(s, prefix) {
      assert s == prefix + s[|prefix|..];
    }
    if exists rest :: s == prefix + rest {
      var rest :| s == prefix + rest;
      assert s[..|prefix|] == prefix;
    }
  }

  /** `sub` occurs in `s` beginning at index `i`. */
  predicate OccursAt(s: string, sub: string, i: nat)
  {
    i + |sub| <= |s| && s[i..i + |sub|] == sub
  }

  /**
   * Python's `sub in s`, scanning `s` from the left: the empty string is
   * in every string, and no string is in a shorter one.
   */
  predicate Contains(s: string, sub: string)
    ensures sub == [] ==> Contains(s, sub)
    ensures Contains(s, sub) ==> |sub| <= |s|
    decreases |s|
  {
    StartsWith(s, sub) || (|s| > 0 && Contains(s[1..], sub))
  }

  lemma OccursAtShift(s: string, sub: string, i: nat)
    requires |s| > 0
    ensures OccursAt(s, sub, i + 1) <==> OccursAt(s[1..], sub, i)
  {
    if i + 1 + |sub| <= |s| {
      assert s[1..][i..i + |sub|] == s[i + 1..i + 1 + |sub|];
    }
  }

  /** The scanning definition agrees with "there is an index where `sub` occurs". */
  lemma {:induction false} ContainsIffOccurs(s: string, sub: string)
    ensures Contains(s, sub) <==> exists i: nat :: OccursAt(s, sub, i)
    decreases |s|
  {
    assert StartsWith(s, sub) <==> OccursAt(s, sub, 0);
    if |s| > 0 {
      ContainsIffOccurs(s[1..], sub);
      forall i: nat
        ensures OccursAt(s, sub, i + 1) <==> OccursAt(s[1..], sub, i)
      {
        OccursAtShift(s, sub, i);
      }
      if exists i: nat :: OccursAt(s, sub, i) {
        var i: nat :| OccursAt(s, sub, i);
        if i > 0 {
          assert OccursAt(s[1..], sub, i - 1);
        }
      }
      if exists i: nat :: OccursAt(s[1..], sub, i) {
        var i: nat :| OccursAt(s[1..], sub, i);
        assert OccursAt(s, sub, i + 1);
      }
    } else {
      forall i: nat
        ensures OccursAt(s, sub, i) ==> i == 0
      {
      }
    }
  }

  /** A prefix with no character that could start `sub` adds no occurrence. */
  lemma {:induction false} ContainsPrefixFree(pre: string, sub: string, rest: string)
    requires sub != []
    requires forall k :: 0 <= k < |pre| ==> pre[k] != sub[0]
    ensures Contains(pre + rest, sub) <==> Contains(rest, sub)
    decreases |pre|
  {
    if pre != [] {
      var s := pre + rest;
      assert s[0] == pre[0];
      assert s[1..] == pre[1..] + rest;
      ContainsPrefixFree(pre[1..], sub, rest);
    } else {
      assert pre + rest == rest;
    }
  }

  /** A string that differs from `sub` at some index of both does not start with it. */
  lemma NotStartsWithAt(s: string, sub: string, i: nat)
    requires i < |s| && i < |sub| && s[i] != sub[i]
    ensures !StartsWith(s, sub)
  {
    if |sub| <= |s| {
      assert s[..|sub|][i] == s[i];
    }
  }

  /** A position where `sub` does not start adds no occurrence. */
  lemma ContainsSkip(s: string, sub: string)
    requires s != [] && !StartsWith(s, sub)
    ensures Contains(s, sub) <==> Contains(s[1..], sub)
  {
  }

  /** Contains from a witness index. */
  lemma ContainsFromOccurrence(s: string, sub: string, i: nat)
    requires OccursAt(s, sub, i)
    ensures Contains(s, sub)
  {
    ContainsIffOccurs(s, sub);
  }

  /**
   * Python's `s.replace(pat, "")`: scan from the left and drop every
   * non-overlapping occurrence of `pat`, not only a leading one. When
   * `pat` occurs, at least one copy of it is gone.
   */
  function RemoveAll(s: string, pat: string): (r: string)
    requires pat != []
    ensures |r| <= |s|
    ensures Contains(s, pat) ==> |r| <= |s| - |pat|
    decreases |s|
  {
    if |s| < |pat| then s
    else if s[..|pat|] == pat then RemoveAll(s[|pat|..], pat)
    else [s[0]] + RemoveAll(s[1..], pat)
  }

  /** A string with no occurrence of `pat` is left as it is. */
  lemma {:induction false} RemoveAllWithoutOccurrence(s: string, pat: string)
    requires pat != []
    requires !Contains(s, pat)
    ensures RemoveAll(s, pat) == s
    decreases |s|
  {
    if |s| >= |pat| {
      assert s[..|pat|] != pat;
      RemoveAllWithoutOccurrence(s[1..], pat);
    }
  }

  /** A leading occurrence is removed, and the scan carries on after it. */
  lemma RemoveAllLeading(pat: string, rest: string)
    requires pat != []
    ensures RemoveAll(pat + rest, pat) == RemoveAll(rest, pat)
  {
    assert (pat + rest)[..|pat|] == pat;
    assert (pat + rest)[|pat|..] == rest;
  }

  /** A position where `pat` does not start keeps its character. */
  lemma RemoveAllSkip(s: string, pat: string)
    requires pat != [] && |s| > 0
    requires !StartsWith(s, pat)
    ensures RemoveAll(s, pat) == [s[0]] + RemoveAll(s[1..], pat)
  {
  }

  /** A prefix with no character that could start `pat` is kept whole. */
  lemma {:induction false} RemoveAllPrefixFree(pre: string, pat: string, rest: string)
    requires pat != []
    requires forall k :: 0 <= k < |pre| ==> pre[k] != pat[0]
    ensures RemoveAll(pre + rest, pat) == pre + RemoveAll(rest, pat)
    decreases |pre|
  {
    if pre != [] {
      var s := pre + rest;
      assert s[0] == pre[0];
      NotStartsWithAt(s, pat, 0);
      RemoveAllSkip(s, pat);
      assert s[1..] == pre[1..] + rest;
      RemoveAllPrefixFree(pre[1..], pat, rest);
    } else {
      assert pre + rest == rest;
    }
  }

  /**
   * An occurrence after a prefix that cannot start `pat` is removed, and
   * the scan carries on after it.
   */
  lemma RemoveAllAfterFreePrefix(pre: string, pat: string, rest: string)
    requires pat != []
    requires forall k :: 0 <= k < |pre| ==> pre[k] != pat[0]
    ensures RemoveAll(pre + pat + rest, pat) == pre + RemoveAll(rest, pat)
  {
    assert pre + pat + rest == pre + (pat + rest);
    RemoveAllPrefixFree(pre, pat, pat + rest);
    RemoveAllLeading(pat, rest);
  }

  /**
   * Occurrences in the middle of the string are removed too: the
   * pattern is a parameter so that the solver does not unfold
   * RemoveAll on two literals.
   */
  lemma RemoveAllInterior(host: string, pat: string)
    requires host == "jobs.www.bayt.com" && pat == "www."
    ensures RemoveAll(host, pat) == "jobs.bayt.com"
  {
    var pre, tail := "jobs.", "bayt.com";
    RemoveAllSingleFree(pre, pat, tail);
    assert host == pre + pat + tail;
  }

  /** Only one occurrence, with no character that could start another around it. */
  lemma RemoveAllSingleFree(pre: string, pat: string, tail: string)
    requires pat != []
    requires forall k :: 0 <= k < |pre| ==> pre[k] != pat[0]
    requires forall k :: 0 <= k < |tail| ==> tail[k] != pat[0]
    ensures RemoveAll(pre + pat + tail, pat) == pre + tail
  {
    RemoveAllAfterFreePrefix(pre, pat, tail);
    RemoveAllPrefixFree(tail, pat, []);
    assert tail + [] == tail;
  }

  /**
   * Removal is a single left-to-right pass, so it can create a new
   * occurrence out of the pieces around a removed one.
   */
  lemma RemoveAllMayLeaveOccurrence(host: string, pat: string)
    requires host == "wwwww.w." && pat == "www."
    ensures RemoveAll(host, pat) == "www."
  {
    var s2 := pat + "w.";
    var s1 := ['w'] + s2;
    var s := ['w'] + s1;
    assert s1[..4][3] == 'w';
    RemoveAllSkip(s1, pat);
    assert s[..4][3] == 'w';
    RemoveAllSkip(s, pat);
    RemoveAllLeading(pat, "w.");
    assert s == host;
  }

  /** Python's `str.lower()` restricted to ASCII letters. */
  function LowerChar(c: char): (l: char)
    ensures 'A' <= c <= 'Z' ==> 'a' <= l <= 'z' && l as int - c as int == 32
    ensures !('A' <= c <= 'Z') ==> l == c
  {
    if 'A' <= c <= 'Z' then (c as int + 32) as char else c
  }

  /**
   * Every capital ASCII letter becomes its small letter, no capital
   * ASCII letter is left, and every other character stays as it is.
   */
  function Lower(s: string): (r: string)
    ensures |r| == |s|
    ensures forall i :: 0 <= i < |r| ==> !('A' <= r[i] <= 'Z')
    ensures forall i :: 0 <= i < |s| && 'A' <= s[i] <= 'Z' ==> r[i] as int == s[i] as int + 32
    ensures forall i :: 0 <= i < |s| && !('A' <= s[i] <= 'Z') ==> r[i] == s[i]
  {
    seq(|s|, i requires 0 <= i < |s| => LowerChar(s[i]))
  }

  /**
   * Python's `<` on strings: lexicographic by code point. Nothing sorts
   * before the empty string; StrLessProperPrefix and
   * StrLessAtFirstDifference state the order in full.
   */
  predicate StrLess(a: string, b: string)
    ensures StrLess(a, b) ==> b != []
    decreases |a|
  {
    if a == [] then b != []
    else if b == [] then false
    else if a[0] != b[0] then a[0] < b[0]
    else StrLess(a[1..], b[1..])
  }

  /** A proper prefix sorts first. */
  lemma {:induction false} StrLessProperPrefix(a: string, b: string)
    requires |a| < |b| && a == b[..|a|]
    ensures StrLess(a, b)
    decreases |a|
  {
    if a != [] {
      assert a[0] == b[0];
      assert a[1..] == b[1..][..|a| - 1];
      StrLessProperPrefix(a[1..], b[1..]);
    }
  }

  /** Past a common prefix, the first differing character decides the order. */
  lemma {:induction false} StrLessAtFirstDifference(a: string, b: string, k: nat)
    requires k < |a| && k < |b| && a[..k] == b[..k] && a[k] != b[k]
    ensures StrLess(a, b) <==> a[k] < b[k]
    decreases k
  {
    if k > 0 {
      assert a[0] == a[..k][0] == b[..k][0] == b[0];
      assert a[1..][..k - 1] == a[..k][1..] == b[..k][1..] == b[1..][..k - 1];
      StrLessAtFirstDifference(a[1..], b[1..], k - 1);
    }
  }

  lemma {:induction false} StrLessIrreflexive(a: string)
    ensures !StrLess(a, a)
    decreases |a|
  {
    if a != [] {
      StrLessIrreflexive(a[1..]);
    }
  }

  lemma {:induction false} StrLessTransitive(a: string, b: string, c: string)
    requires StrLess(a, b) && StrLess(b, c)
    ensures StrLess(a, c)
    decreases |a|
  {
    if a != [] && b != [] && c != [] && a[0] == b[0] == c[0] {
      StrLessTransitive(a[1..], b[1..], c[1..]);
    }
  }

  /** Any two different strings are ordered one way or the other. */
  lemma {:induction false} StrLessTotal(a: string, b: string)
    requires a != b
    ensures StrLess(a, b) || StrLess(b, a)
    decreases |a|
  {
    if a != [] && b != [] && a[0] == b[0] {
      assert a == [a[0]] + a[1..] && b == [b[0]] + b[1..];
      StrLessTotal(a[1..], b[1..]);
    }
  }

  lemma StrLessAsymmetric(a: string, b: string)
    requires StrLess(a, b)
    ensures !StrLess(b, a)
  {
    if StrLess(b, a) {
      StrLessTransitive(a, b, a);
      StrLessIrreflexive(a);
    }
  }
}
