/**
 The Kotlin standard-library string operations that the downloader's URL and
 file-name logic is built from: substring search, `lastIndexOf`,
 `substringAfterLast`, `replace` of a literal, `trim` and case-insensitive
 `contains`. Strings are sequences of Unicode scalar values.
 */
module Text {

  /** `\d` of a Java regular expression without UNICODE_CHARACTER_CLASS: ASCII digits only. */
  predicate IsDigit(c: char) {
    '0' <= c <= '9'
  }

  predicate AllDigits(s: string) {
    forall i :: 0 <= i < |s| ==> IsDigit(s[i])
  }

  /**
   Kotlin's `Char.isWhitespace()` on the JVM: `Character.isWhitespace` or
   `Character.isSpaceChar`, i.e. the ASCII controls TAB..CR and FS..US, and every
   space, line or paragraph separator.
   */
  predicate IsWhitespace(c: char) {
    || c == '\t' || c == '\n' || c == '\U{000B}' || c == '\U{000C}' || c == '\r'
    || ('\U{001C}' <= c <= '\U{001F}')
    || c == ' ' || c == '\U{00A0}' || c == '\U{1680}'
    || ('\U{2000}' <= c <= '\U{200A}')
    || c == '\U{2028}' || c == '\U{2029}' || c == '\U{202F}' || c == '\U{205F}' || c == '\U{3000}'
  }

  /** `pat` occurs in `s` starting at index `i`. */
  predicate OccursAt(s: string, pat: string, i: int) {
    0 <= i && i + |pat| <= |s| && s[i..i + |pat|] == pat
  }

  /** Kotlin's `s.contains(pat)` (case-sensitive). The empty pattern occurs everywhere. */
  predicate Contains(s: string, pat: string)
    ensures Contains(s, pat) ==> |pat| <= |s|
    ensures pat == [] ==> Contains(s, pat)
  {
    assert pat == [] ==> OccursAt(s, pat, 0);
    exists i :: 0 <= i <= |s| - |pat| && OccursAt(s, pat, i)
  }

  /** An occurrence inside a contiguous piece of `s` is an occurrence in `s`. */
  lemma {:induction false} ContainsOfSlice(s: string, lo: nat, hi: nat, pat: string)
    requires lo <= hi <= |s|
    requires Contains(s[lo..hi], pat)
    ensures Contains(s, pat)
  {
    var t := s[lo..hi];
    var i :| 0 <= i <= |t| - |pat| && OccursAt(t, pat, i);
    assert t[i..i + |pat|] == pat;
    forall k | 0 <= k < |pat| ensures s[lo + i + k] == pat[k] {
      assert t[i + k] == pat[k];
    }
    assert s[lo + i..lo + i + |pat|] == pat;
    assert OccursAt(s, pat, lo + i);
  }

  /** Substring containment is transitive: every substring of a substring of `s` is one of `s`. */
  lemma {:induction false} ContainsTransitive(s: string, mid: string, pat: string)
    requires Contains(s, mid) && Contains(mid, pat)
    ensures Contains(s, pat)
  {
    var i :| 0 <= i <= |s| - |mid| && OccursAt(s, mid, i);
    assert s[i..i + |mid|] == mid;
    ContainsOfSlice(s, i, i + |mid|, pat);
  }

  /**
   Kotlin's `s.lastIndexOf(c)`: the index of the last `c` in `s`, or -1 when
   there is none.
   */
  function LastIndexOf(s: string, c: char): (r: int)
    ensures -1 <= r < |s|
    ensures r >= 0 ==> s[r] == c
    ensures forall k :: r < k < |s| ==> s[k] != c
    decreases |s|
  {
    if s == [] then -1
    else if s[|s| - 1] == c then |s| - 1
    else LastIndexOf(s[..|s| - 1], c)
  }

  /**
   Kotlin's `s.substringAfterLast(c)` with the default missing-delimiter value:
   the text after the last `c`, or all of `s` when `c` does not occur.
   */
  function SubstringAfterLast(s: string, c: char): (r: string)
    ensures c !in r
    ensures |r| <= |s| && s[|s| - |r|..] == r
    ensures |r| < |s| ==> s[|s| - |r| - 1] == c
    ensures c !in s ==> r == s
  {
    var i := LastIndexOf(s, c);
    if i < 0 then s else s[i + 1..]
  }

  /**
   Kotlin's `s.replace(pat, rep)` for a non-empty literal `pat`: occurrences
   are found left to right and do not overlap; scanning resumes after each
   replaced occurrence.
   */
  function ReplaceAll(s: string, pat: string, rep: string): (r: string)
    requires |pat| > 0
    ensures |rep| <= |pat| ==> |r| <= |s|
    decreases |s|
  {
    if |s| < |pat| then s
    else if pat <= s then rep + ReplaceAll(s[|pat|..], pat, rep)
    else [s[0]] + ReplaceAll(s[1..], pat, rep)
  }

  /** Occurrences in `[c] + t` past index 0 are the occurrences in `t`, shifted by one. */
  lemma OccursAtShift(c: char, t: string, pat: string, i: nat)
    ensures OccursAt([c] + t, pat, i + 1) <==> OccursAt(t, pat, i)
  {
    if i + |pat| <= |t| {
      assert ([c] + t)[i + 1..i + 1 + |pat|] == t[i..i + |pat|];
    }
  }

  /** When `pat` does not start at index 0, `replace` copies the first character. */
  lemma ReplaceAllCopiesFirst(s: string, pat: string, rep: string)
    requires |pat| > 0 && s != [] && !OccursAt(s, pat, 0)
    ensures ReplaceAll(s, pat, rep) == [s[0]] + ReplaceAll(s[1..], pat, rep)
  {
    if |s| < |pat| {
      assert [s[0]] + s[1..] == s;
    } else {
      assert !(pat <= s);
    }
  }

  /**
   A prefix `a` in which no occurrence of `pat` starts is copied unchanged:
   the replacement only acts on the rest.
   */
  lemma {:induction false} ReplaceAllSkipsPrefix(a: string, b: string, pat: string, rep: string)
    requires |pat| > 0
    requires forall i :: 0 <= i < |a| ==> !OccursAt(a + b, pat, i)
    ensures ReplaceAll(a + b, pat, rep) == a + ReplaceAll(b, pat, rep)
    decreases |a|
  {
    if a == [] {
      assert a + b == b;
    } else {
      var s, t := a + b, a[1..] + b;
      assert s == [a[0]] + t;
      forall i | 0 <= i < |a| - 1 ensures !OccursAt(t, pat, i) {
        OccursAtShift(a[0], t, pat, i);
        assert !OccursAt(s, pat, i + 1);
      }
      ReplaceAllSkipsPrefix(a[1..], b, pat, rep);
      assert !OccursAt(s, pat, 0);
      ReplaceAllCopiesFirst(s, pat, rep);
      assert s[1..] == t;
      assert a == [a[0]] + a[1..];
    }
  }

  /** A string without any occurrence of `pat` comes back unchanged. */
  lemma ReplaceAllNoMatch(s: string, pat: string, rep: string)
    requires |pat| > 0
    requires !Contains(s, pat)
    ensures ReplaceAll(s, pat, rep) == s
  {
    forall i | 0 <= i < |s| ensures !OccursAt(s + [], pat, i) {
      assert s + [] == s;
    }
    ReplaceAllSkipsPrefix(s, [], pat, rep);
    assert s + [] == s;
  }

  /** Replacing with something shorter shrinks every string that contains `pat`. */
  lemma {:induction false} ReplaceAllShrinks(s: string, pat: string, rep: string)
    requires |rep| < |pat|
    ensures |ReplaceAll(s, pat, rep)| <= |s|
    ensures Contains(s, pat) ==> |ReplaceAll(s, pat, rep)| < |s|
    decreases |s|
  {
    if |s| < |pat| {
    } else if pat <= s {
      ReplaceAllShrinks(s[|pat|..], pat, rep);
    } else {
      ReplaceAllShrinks(s[1..], pat, rep);
      if Contains(s, pat) {
        var i :| 0 <= i <= |s| - |pat| && OccursAt(s, pat, i);
        if i == 0 {
          assert false;
        }
        OccursAtShift(s[0], s[1..], pat, i - 1);
        assert [s[0]] + s[1..] == s;
      }
    }
  }

  /**
   With a shorter replacement, `replace` is the identity exactly on the strings
   that do not contain `pat`.
   */
  lemma ReplaceAllIdentityIff(s: string, pat: string, rep: string)
    requires |rep| < |pat|
    ensures ReplaceAll(s, pat, rep) == s <==> !Contains(s, pat)
  {
    ReplaceAllShrinks(s, pat, rep);
    if !Contains(s, pat) {
      ReplaceAllNoMatch(s, pat, rep);
    }
  }

  /** The number of whitespace characters at the start of `s`. */
  function LeadingWhitespace(s: string): (n: nat)
    ensures n <= |s|
    ensures forall k :: 0 <= k < n ==> IsWhitespace(s[k])
    ensures n < |s| ==> !IsWhitespace(s[n])
    decreases |s|
  {
    if s != [] && IsWhitespace(s[0]) then 1 + LeadingWhitespace(s[1..]) else 0
  }

  /** The number of whitespace characters at the end of `s`. */
  function TrailingWhitespace(s: string): (n: nat)
    ensures n <= |s|
    ensures forall k :: |s| - n <= k < |s| ==> IsWhitespace(s[k])
    ensures n < |s| ==> !IsWhitespace(s[|s| - n - 1])
    decreases |s|
  {
    if s != [] && IsWhitespace(s[|s| - 1]) then 1 + TrailingWhitespace(s[..|s| - 1]) else 0
  }

  /**
   Kotlin's `s.trim()`: `s` without its leading and trailing whitespace. The
   trimmed text is a piece of `s` that neither starts nor ends with whitespace,
   and it is empty only when `s` is all whitespace.
   */
  function Trim(s: string): (r: string)
    ensures |r| <= |s|
    ensures r != [] ==> !IsWhitespace(r[0]) && !IsWhitespace(r[|r| - 1])
    ensures r == [] ==> forall k :: 0 <= k < |s| ==> IsWhitespace(s[k])
  {
    var lo := LeadingWhitespace(s);
    var hi := |s| - TrailingWhitespace(s[lo..]);
    assert forall k :: hi <= k < |s| ==> s[k] == s[lo..][k - lo];
    s[lo..hi]
  }

  /**
   Case folding for comparisons against an ASCII or caseless pattern character.
   Under Java's `Character.toUpperCase`/`toLowerCase` (which Kotlin's
   `ignoreCase` and `String.regionMatches(true, ...)` apply per character), the
   code points that match an ASCII letter ignoring case are that letter in
   either case, plus U+0130 and U+0131 (with `i`), U+017F (with `s`) and
   U+212A (with `k`).
   */
  function FoldCase(c: char): (f: char)
    ensures 'A' <= c <= 'Z' ==> 'a' <= f <= 'z' && f as int == c as int + 32
    ensures c == '\U{0130}' || c == '\U{0131}' ==> f == 'i'
    ensures c == '\U{017F}' ==> f == 's'
    ensures c == '\U{212A}' ==> f == 'k'
    ensures !('A' <= c <= 'Z') && !IsSpecialFold(c) ==> f == c
  {
    if 'A' <= c <= 'Z' then (c as int + 32) as char
    else if c == '\U{0130}' || c == '\U{0131}' then 'i'
    else if c == '\U{017F}' then 's'
    else if c == '\U{212A}' then 'k'
    else c
  }

  /** The four non-ASCII code points whose Java case mapping reaches an ASCII letter. */
  predicate IsSpecialFold(c: char) {
    c == '\U{0130}' || c == '\U{0131}' || c == '\U{017F}' || c == '\U{212A}'
  }

  predicate CharEqualsIgnoreCase(c: char, p: char) {
    FoldCase(c) == FoldCase(p)
  }

  /**
   The characters that match a lower-case ASCII pattern letter ignoring case:
   the letter itself, its capital, and the special code point that folds to it.
   */
  lemma CharEqualsIgnoreCaseLetter(c: char, p: char)
    requires 'a' <= p <= 'z'
    ensures CharEqualsIgnoreCase(c, p) <==>
      c == p || c as int == p as int - 32 ||
      (p == 'i' && (c == '\U{0130}' || c == '\U{0131}')) ||
      (p == 's' && c == '\U{017F}') ||
      (p == 'k' && c == '\U{212A}')
  {
  }

  /** A pattern character with no case (neither an ASCII letter nor special) matches only itself. */
  lemma CharEqualsIgnoreCaseCaseless(c: char, p: char)
    requires !('a' <= p <= 'z') && !('A' <= p <= 'Z') && !IsSpecialFold(p)
    ensures CharEqualsIgnoreCase(c, p) <==> c == p
  {
  }

  /** `pat` matches `s` at index `i`, ignoring case. */
  predicate RegionMatchesIgnoreCase(s: string, i: int, pat: string) {
    0 <= i && i + |pat| <= |s| &&
    forall k :: 0 <= k < |pat| ==> CharEqualsIgnoreCase(s[i + k], pat[k])
  }

  /** Kotlin's `s.contains(pat, ignoreCase = true)`. */
  predicate ContainsIgnoreCase(s: string, pat: string)
    ensures ContainsIgnoreCase(s, pat) ==> |pat| <= |s|
  {
    exists i :: 0 <= i <= |s| - |pat| && RegionMatchesIgnoreCase(s, i, pat)
  }

  /** An exact occurrence is also an occurrence ignoring case. */
  lemma ContainsIgnoreCaseOfContains(s: string, pat: string)
    requires Contains(s, pat)
    ensures ContainsIgnoreCase(s, pat)
  {
    var i :| 0 <= i <= |s| - |pat| && OccursAt(s, pat, i);
    forall k | 0 <= k < |pat| ensures CharEqualsIgnoreCase(s[i + k], pat[k]) {
      assert s[i..i + |pat|][k] == pat[k];
    }
    assert RegionMatchesIgnoreCase(s, i, pat);
  }

  /** Kotlin's `a.equals(b, ignoreCase = true)`. */
  predicate EqualsIgnoreCase(a: string, b: string) {
    |a| == |b| && RegionMatchesIgnoreCase(a, 0, b)
  }

  /** Matching at `i` inside the piece `s[lo..hi]` is matching at `lo + i` in `s`. */
  lemma RegionMatchesOfSlice(s: string, lo: nat, hi: nat, i: nat, pat: string)
    requires lo <= hi <= |s| && i + |pat| <= hi - lo
    ensures RegionMatchesIgnoreCase(s[lo..hi], i, pat) <==> RegionMatchesIgnoreCase(s, lo + i, pat)
  {
    forall k | 0 <= k < |pat|
      ensures CharEqualsIgnoreCase(s[lo..hi][i + k], pat[k]) == CharEqualsIgnoreCase(s[lo + i + k], pat[k])
    {
    }
  }

  /** `trim()` is the piece `s[lo..hi]` that is left after the leading and trailing whitespace. */
  lemma TrimIsSlice(s: string) returns (lo: nat, hi: nat)
    ensures lo <= hi <= |s| && Trim(s) == s[lo..hi]
    ensures forall k :: 0 <= k < lo ==> IsWhitespace(s[k])
    ensures forall k :: hi <= k < |s| ==> IsWhitespace(s[k])
  {
    lo := LeadingWhitespace(s);
    var tail := s[lo..];
    var n := TrailingWhitespace(tail);
    hi := |s| - n;
    forall k | hi <= k < |s| ensures IsWhitespace(s[k]) {
      assert s[k] == tail[k - lo];
    }
    assert Trim(s) == s[lo..hi];
  }

  /** An occurrence in a piece of `s` is an occurrence in `s`, ignoring case. */
  lemma ContainsIgnoreCaseOfSlice(s: string, lo: nat, hi: nat, pat: string)
    requires lo <= hi <= |s| && ContainsIgnoreCase(s[lo..hi], pat)
    ensures ContainsIgnoreCase(s, pat)
  {
    var i :| 0 <= i <= hi - lo - |pat| && RegionMatchesIgnoreCase(s[lo..hi], i, pat);
    RegionMatchesOfSlice(s, lo, hi, i, pat);
  }

  /**
   An occurrence in `s` lies inside `s[lo..hi]` when only characters that
   cannot match `pat` lie outside it.
   */
  lemma ContainsIgnoreCaseInSlice(s: string, lo: nat, hi: nat, pat: string)
    requires lo <= hi <= |s| && |pat| > 0
    requires forall k :: 0 <= k < lo ==> IsWhitespace(s[k])
    requires forall k :: hi <= k < |s| ==> IsWhitespace(s[k])
    requires forall c, k :: IsWhitespace(c) && 0 <= k < |pat| ==> !CharEqualsIgnoreCase(c, pat[k])
    requires ContainsIgnoreCase(s, pat)
    ensures ContainsIgnoreCase(s[lo..hi], pat)
  {
    var i :| 0 <= i <= |s| - |pat| && RegionMatchesIgnoreCase(s, i, pat);
    assert CharEqualsIgnoreCase(s[i + 0], pat[0]);
    var last := |pat| - 1;
    assert CharEqualsIgnoreCase(s[i + last], pat[last]);
    RegionMatchesOfSlice(s, lo, hi, i - lo, pat);
    assert RegionMatchesIgnoreCase(s[lo..hi], i - lo, pat);
  }

  /**
   When no whitespace character can match any character of a non-empty `pat`,
   trimming does not change whether `pat` occurs in `s`, ignoring case.
   */
  lemma TrimKeepsContainsIgnoreCase(s: string, pat: string)
    requires |pat| > 0
    requires forall c, k :: IsWhitespace(c) && 0 <= k < |pat| ==> !CharEqualsIgnoreCase(c, pat[k])
    ensures ContainsIgnoreCase(Trim(s), pat) <==> ContainsIgnoreCase(s, pat)
  {
    var lo, hi := TrimIsSlice(s);
    if ContainsIgnoreCase(s[lo..hi], pat) {
      ContainsIgnoreCaseOfSlice(s, lo, hi, pat);
    }
    if ContainsIgnoreCase(s, pat) {
      ContainsIgnoreCaseInSlice(s, lo, hi, pat);
    }
  }
}
