/**
  The Kotlin string helpers the command parser relies on: `indexOf`,
  `substringAfter`, `substringBefore`, `contains(ignoreCase = true)` and
  `trim`, over strings as sequences of characters.
 */
module KotlinStrings {
  import opened Wrappers

  /** `d` occurs in `s` starting at index `i` (case-sensitive). */
  predicate OccursAt(s: string, d: string, i: nat) {
    i + |d| <= |s| && s[i..i + |d|] == d
  }

  ghost predicate Occurs(s: string, d: string) {
    exists i: nat :: OccursAt(s, d, i)
  }

  /** `i` is the leftmost position at which `d` occurs in `s`. */
  ghost predicate IsFirstOccurrence(s: string, d: string, i: nat) {
    OccursAt(s, d, i) && forall j: nat :: j < i ==> !OccursAt(s, d, j)
  }

  /** Leftmost occurrence of `d` in `s` at or after `from`. */
  function IndexOfFrom(s: string, d: string, from: nat): (r: Option<nat>)
    ensures r.Some? ==> from <= r.value && OccursAt(s, d, r.value)
    ensures r.Some? ==> forall j: nat :: from <= j < r.value ==> !OccursAt(s, d, j)
    ensures r.None? ==> forall j: nat :: from <= j ==> !OccursAt(s, d, j)
    decreases |s| + 1 - from
  {
    if from + |d| > |s| then None
    else if s[from..from + |d|] == d then Some(from)
    else IndexOfFrom(s, d, from + 1)
  }

  /** Kotlin's `s.indexOf(d)`, with `None` in place of -1. */
  function IndexOf(s: string, d: string): (r: Option<nat>)
    ensures r.Some? <==> Occurs(s, d)
    ensures r.Some? ==> IsFirstOccurrence(s, d, r.value)
  {
    IndexOfFrom(s, d, 0)
  }

  /** Kotlin's `s.substringAfter(d)`. */
  function SubstringAfter(s: string, d: string): (r: string)
    ensures |r| <= |s| && r == s[|s| - |r|..]
    ensures Occurs(s, d) ==> |r| + |d| <= |s|
    ensures !Occurs(s, d) ==> r == s
  {
    match IndexOf(s, d)
    case None => s
    case Some(i) => s[i + |d|..]
  }

  /** Kotlin's `s.substringBefore(d)`. */
  function SubstringBefore(s: string, d: string): (r: string)
    ensures |r| <= |s| && r == s[..|r|]
    ensures Occurs(s, d) ==> |r| + |d| <= |s| && OccursAt(s, d, |r|)
    ensures !Occurs(s, d) ==> r == s
  {
    match IndexOf(s, d)
    case None => s
    case Some(i) => s[..i]
  }

  /** `substringAfter` gives the text after the first occurrence of `d`, and
      the whole of `s` when `d` does not occur. */
  lemma SubstringAfterMeaning(s: string, d: string)
    ensures !Occurs(s, d) ==> SubstringAfter(s, d) == s
    ensures forall i: nat :: IsFirstOccurrence(s, d, i) ==> SubstringAfter(s, d) == s[i + |d|..]
  {
  }

  /** `substringBefore` gives the text before the first occurrence of `d`,
      and the whole of `s` when `d` does not occur. */
  lemma SubstringBeforeMeaning(s: string, d: string)
    ensures !Occurs(s, d) ==> SubstringBefore(s, d) == s
    ensures forall i: nat :: IsFirstOccurrence(s, d, i) ==> SubstringBefore(s, d) == s[..i]
  {
  }

  /** Cutting at the first delimiter loses nothing: before, delimiter and
      after put back together give the original text. */
  lemma SubstringSplit(s: string, d: string)
    requires Occurs(s, d)
    ensures SubstringBefore(s, d) + d + SubstringAfter(s, d) == s
  {
    var i := IndexOf(s, d).value;
    SubstringAfterMeaning(s, d);
    SubstringBeforeMeaning(s, d);
    assert s == s[..i] + s[i..i + |d|] + s[i + |d|..];
  }

  /** When `d` first occurs right after `p`, `substringBefore` gives back `p`
      and `substringAfter` gives back what followed the delimiter. The
      requirement says that no occurrence of `d` starts inside `p`. */
  lemma {:induction false} SubstringAfterFirst(p: string, d: string, q: string)
    requires |d| > 0 && !Occurs(p + d[..|d| - 1], d)
    ensures SubstringBefore(p + d + q, d) == p
    ensures SubstringAfter(p + d + q, d) == q
  {
    var t := p + d + q;
    var u := p + d[..|d| - 1];
    assert t[|p|..|p| + |d|] == d;
    assert u == t[..|u|];
    forall j: nat | j < |p|
      ensures !OccursAt(t, d, j)
    {
      if j + |d| <= |t| {
        assert u[j..j + |d|] == t[j..j + |d|];
        assert !OccursAt(u, d, j);
      }
    }
    assert IsFirstOccurrence(t, d, |p|);
    SubstringAfterMeaning(t, d);
    SubstringBeforeMeaning(t, d);
    assert t[|p| + |d|..] == q;
    assert t[..|p|] == p;
  }

  /** `d` cannot occur in `a + b` when its first character is absent from
      `a` and `b` is too short to hold it. */
  lemma NoOccurrenceSplit(a: string, b: string, d: string)
    requires |d| > 0 && d[0] !in a && |b| < |d|
    ensures !Occurs(a + b, d)
  {
    forall i: nat
      ensures !OccursAt(a + b, d, i)
    {
      if i + |d| <= |a + b| {
        assert (a + b)[i..i + |d|][0] == a[i] != d[0];
      }
    }
  }

  /** A one-character delimiter occurs exactly when the character does. */
  lemma OccursSingle(s: string, c: char)
    ensures Occurs(s, [c]) <==> c in s
  {
    if c in s {
      var i :| 0 <= i < |s| && s[i] == c;
      assert OccursAt(s, [c], i);
    }
    if Occurs(s, [c]) {
      var i: nat :| OccursAt(s, [c], i);
      assert s[i..i + 1][0] == s[i];
    }
  }

  // ---- case-insensitive containment ----

  /** ASCII upper-case letters map to lower case; everything else is kept. */
  function LowerChar(c: char): char {
    if 'A' <= c <= 'Z' then (c as int + 32) as char else c
  }

  function LowerAscii(s: string): (r: string)
    ensures |r| == |s|
    ensures forall i :: 0 <= i < |s| ==> r[i] == LowerChar(s[i])
  {
    seq(|s|, i requires 0 <= i < |s| => LowerChar(s[i]))
  }

  /** Lower-casing twice is lower-casing once. */
  lemma LowerAsciiIdempotent(s: string)
    ensures LowerAscii(LowerAscii(s)) == LowerAscii(s)
  {
  }

  /** `n` matches `s` at `i` when every character agrees up to case, as
      Kotlin's `regionMatches(ignoreCase = true)` compares them. */
  predicate MatchesIgnoreCaseAt(s: string, n: string, i: nat) {
    i + |n| <= |s| && forall k :: 0 <= k < |n| ==> LowerChar(s[i + k]) == LowerChar(n[k])
  }

  /** Kotlin's `s.contains(n, ignoreCase = true)`, searching the lower-cased
      text for the lower-cased needle. */
  function ContainsIgnoreCase(s: string, n: string): (b: bool)
    ensures b ==> |n| <= |s|
    ensures |n| == 0 ==> b
  {
    assert OccursAt(LowerAscii(s), LowerAscii(n), 0) <== |n| == 0;
    IndexOf(LowerAscii(s), LowerAscii(n)).Some?
  }

  /** Containment ignoring case means a case-insensitive match somewhere. */
  lemma ContainsIgnoreCaseMeaning(s: string, n: string)
    ensures ContainsIgnoreCase(s, n) <==> exists i: nat :: MatchesIgnoreCaseAt(s, n, i)
  {
    MatchesAreLowerOccurrences(s, n);
  }

  lemma MatchesAreLowerOccurrences(s: string, n: string)
    ensures forall i: nat :: MatchesIgnoreCaseAt(s, n, i) <==> OccursAt(LowerAscii(s), LowerAscii(n), i)
  {
    var ls, ln := LowerAscii(s), LowerAscii(n);
    forall i: nat
      ensures MatchesIgnoreCaseAt(s, n, i) <==> OccursAt(ls, ln, i)
    {
      if i + |n| <= |s| {
        if MatchesIgnoreCaseAt(s, n, i) {
          assert ls[i..i + |n|] == ln;
        }
        if OccursAt(ls, ln, i) {
          forall k | 0 <= k < |n|
            ensures LowerChar(s[i + k]) == LowerChar(n[k])
          {
            assert ls[i..i + |n|][k] == ln[k];
          }
        }
      }
    }
  }

  /** An exact occurrence is in particular a case-insensitive one. */
  lemma ExactMatchIgnoresCase(s: string, n: string, i: nat)
    requires OccursAt(s, n, i)
    ensures ContainsIgnoreCase(s, n)
  {
    forall k | 0 <= k < |n|
      ensures LowerChar(s[i + k]) == LowerChar(n[k])
    {
      assert s[i..i + |n|][k] == n[k];
    }
    assert MatchesIgnoreCaseAt(s, n, i);
    ContainsIgnoreCaseMeaning(s, n);
  }

  /** A text in which some letter of `n` appears in neither case cannot
      contain `n`, whatever the case. */
  lemma NoMatchWithoutLetter(s: string, n: string, k: nat)
    requires k < |n| && 'a' <= n[k] <= 'z'
    requires n[k] !in s && (n[k] as int - 32) as char !in s
    ensures !ContainsIgnoreCase(s, n)
  {
    ContainsIgnoreCaseMeaning(s, n);
    forall i: nat
      ensures !MatchesIgnoreCaseAt(s, n, i)
    {
      if i + |n| <= |s| {
        assert s[i + k] in s;
        assert LowerChar(s[i + k]) != LowerChar(n[k]);
      }
    }
  }

  /** Case-insensitive containment looks only at the lower-cased text. */
  lemma ContainsIgnoresCase(s: string, n: string)
    ensures ContainsIgnoreCase(LowerAscii(s), n) == ContainsIgnoreCase(s, n)
  {
    LowerAsciiIdempotent(s);
    ContainsIgnoreCaseMeaning(s, n);
    ContainsIgnoreCaseMeaning(LowerAscii(s), n);
  }

  // ---- trim ----

  /** Kotlin's `Char.isWhitespace()` on the JVM: `Character.isWhitespace`
      (tab, line feed, vertical tab, form feed, carriage return and the
      separators U+001C..U+001F) or `Character.isSpaceChar` (the Unicode
      space, line and paragraph separators). */
  predicate IsWhitespace(c: char) {
    var n := c as int;
    || (9 <= n <= 13)
    || (0x1C <= n <= 0x20)
    || n == 0xA0
    || n == 0x1680
    || (0x2000 <= n <= 0x200A)
    || n == 0x2028
    || n == 0x2029
    || n == 0x202F
    || n == 0x205F
    || n == 0x3000
  }

  /** The code points Unicode puts in the space, line and paragraph
      separator categories (Zs, Zl, Zp). */
  const SeparatorPoints: set<int> :=
    {0x20, 0xA0, 0x1680, 0x2000, 0x2001, 0x2002, 0x2003, 0x2004, 0x2005,
     0x2006, 0x2007, 0x2008, 0x2009, 0x200A, 0x2028, 0x2029, 0x202F,
     0x205F, 0x3000}

  /** The no-break spaces, which Java's `Character.isWhitespace` excludes
      from the separators. */
  const NoBreakPoints: set<int> := {0xA0, 0x2007, 0x202F}

  /** Java's `Character.isWhitespace`: a separator other than a no-break
      space, or one of the control characters tab to carriage return and
      the four information separators. */
  predicate JavaWhitespace(c: char) {
    var n := c as int;
    (n in SeparatorPoints && n !in NoBreakPoints) || 9 <= n <= 13 || 0x1C <= n <= 0x1F
  }

  /** Java's `Character.isSpaceChar`: any separator. */
  predicate SpaceChar(c: char) {
    c as int in SeparatorPoints
  }

  /** Kotlin's `Char.isWhitespace` on the JVM accepts what either Java
      predicate accepts. */
  lemma WhitespaceIsJavaOrSpace(c: char)
    ensures IsWhitespace(c) <==> JavaWhitespace(c) || SpaceChar(c)
  {
  }

  predicate AllWhitespace(s: string) {
    forall i {:trigger IsWhitespace(s[i])} :: 0 <= i < |s| ==> IsWhitespace(s[i])
  }

  /** No whitespace at either end. */
  predicate IsTrimmed(s: string) {
    |s| == 0 || (!IsWhitespace(s[0]) && !IsWhitespace(s[|s| - 1]))
  }

  /** Drops leading whitespace: the result is the suffix of `s` that starts
      at its first non-whitespace character. */
  function TrimStart(s: string): (r: string)
    ensures |r| <= |s| && r == s[|s| - |r|..]
    ensures AllWhitespace(s[..|s| - |r|])
    ensures |r| == 0 || !IsWhitespace(r[0])
    decreases |s|
  {
    if |s| > 0 && IsWhitespace(s[0]) then
      var r := TrimStart(s[1..]);
      assert s[..|s| - |r|] == [s[0]] + s[1..][..|s| - 1 - |r|];
      r
    else
      s
  }

  /** Drops trailing whitespace: the result is the prefix of `s` that ends at
      its last non-whitespace character. */
  function TrimEnd(s: string): (r: string)
    ensures |r| <= |s| && r == s[..|r|]
    ensures AllWhitespace(s[|r|..])
    ensures |r| == 0 || !IsWhitespace(r[|r| - 1])
    decreases |s|
  {
    if |s| > 0 && IsWhitespace(s[|s| - 1]) then
      var r := TrimEnd(s[..|s| - 1]);
      assert s[|r|..] == s[..|s| - 1][|r|..] + [s[|s| - 1]];
      r
    else
      s
  }

  /** Kotlin's `s.trim()`: `s` without its leading and trailing whitespace. */
  function Trim(s: string): (r: string)
    ensures IsTrimmed(r)
    ensures |r| <= |s|
  {
    var t := TrimStart(s);
    var r := TrimEnd(t);
    assert IsTrimmed(r) by {
      if |r| > 0 {
        assert r[0] == t[0];
      }
    }
    r
  }

  /** Where the text kept by `Trim` starts: after the leading whitespace. */
  function TrimOffset(s: string): nat {
    |s| - |TrimStart(s)|
  }

  /** What `Trim` removes is whitespace, at the two ends only. */
  lemma TrimRemovesOnlyWhitespace(s: string)
    ensures TrimOffset(s) + |Trim(s)| <= |s|
    ensures Trim(s) == s[TrimOffset(s)..TrimOffset(s) + |Trim(s)|]
    ensures AllWhitespace(s[..TrimOffset(s)])
    ensures AllWhitespace(s[TrimOffset(s) + |Trim(s)|..])
  {
    TrimKeepsSlice(s);
    TrimDropsTrailing(s);
  }

  lemma TrimKeepsSlice(s: string)
    ensures Trim(s) == s[TrimOffset(s)..TrimOffset(s) + |Trim(s)|]
  {
    var t := TrimStart(s);
    var r := TrimEnd(t);
    var a := |s| - |t|;
    assert Trim(s) == r && TrimOffset(s) == a;
    assert t == s[a..];
    assert r == t[..|r|];
  }

  lemma TrimDropsTrailing(s: string)
    ensures AllWhitespace(s[TrimOffset(s) + |Trim(s)|..])
  {
    TrimParts(s);
    WhitespaceTailShift(s, TrimOffset(s), |Trim(s)|);
  }

  /** `Trim` is `trimEnd` after `trimStart`, and its offset is what the
      latter dropped. */
  lemma TrimParts(s: string)
    ensures Trim(s) == TrimEnd(TrimStart(s))
    ensures TrimOffset(s) == |s| - |TrimStart(s)|
    ensures AllWhitespace(s[TrimOffset(s)..][|Trim(s)|..])
  {
  }

  /** A whitespace tail of a suffix is a whitespace tail of the whole. */
  lemma WhitespaceTailShift(s: string, a: nat, b: nat)
    requires a + b <= |s| && AllWhitespace(s[a..][b..])
    ensures AllWhitespace(s[a + b..])
  {
    assert s[a + b..] == s[a..][b..];
  }

  /** Trimming undoes any whitespace padding of an already-trimmed text;
      with the contract of `Trim` this pins `Trim` down completely. */
  lemma TrimPadded(pre: string, x: string, post: string)
    requires AllWhitespace(pre) && AllWhitespace(post) && IsTrimmed(x)
    ensures Trim(pre + x + post) == x
  {
    assert pre + x + post == pre + (x + post);
    if |x| == 0 {
      assert x + post == post;
      TrimStartPadded(pre + post, "");
      assert pre + post + "" == pre + post;
    } else {
      TrimStartPadded(pre, x + post);
      TrimEndPadded(x, post);
    }
  }

  lemma {:induction false} TrimStartPadded(pre: string, y: string)
    requires AllWhitespace(pre) && (|y| == 0 || !IsWhitespace(y[0]))
    ensures TrimStart(pre + y) == y
    decreases |pre|
  {
    if |pre| == 0 {
      assert pre + y == y;
    } else {
      assert (pre + y)[1..] == pre[1..] + y;
      TrimStartPadded(pre[1..], y);
    }
  }

  lemma {:induction false} TrimEndPadded(y: string, post: string)
    requires AllWhitespace(post) && (|y| == 0 || !IsWhitespace(y[|y| - 1]))
    ensures TrimEnd(y + post) == y
    decreases |post|
  {
    if |post| == 0 {
      assert y + post == y;
    } else {
      assert (y + post)[..|y + post| - 1] == y + post[..|post| - 1];
      TrimEndPadded(y, post[..|post| - 1]);
    }
  }

  /** Trimming is idempotent. */
  lemma TrimIdempotent(s: string)
    ensures Trim(Trim(s)) == Trim(s)
  {
    TrimPadded("", Trim(s), "");
    assert "" + Trim(s) + "" == Trim(s);
  }
}
