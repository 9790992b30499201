/**
 * The parts of Python's `str` API that the billing scripts rely on, restricted
 * to ASCII: whitespace (`str.isspace`, `str.strip`, the regex class `\s`),
 * `str.lower`, substring search (`in`, `find`), `str.replace`, `str.split`,
 * `str.join`, `str.isdigit` and `str(int)`.
 */
module Strings {
  import opened Wrappers

  // ---------------------------------------------------------------------------
  // Characters

  /** `c.isspace()` and the regex class `\s` on ASCII: space, \t \n \v \f \r and the separators 0x1c-0x1f. */
  predicate IsSpace(c: char)
  {
    c == ' ' || (9 <= c as int <= 13) || (28 <= c as int <= 31)
  }

  predicate IsDigit(c: char)
  {
    '0' <= c <= '9'
  }

  /** `c.lower()` on ASCII. */
  function LowerChar(c: char): char
  {
    if 'A' <= c <= 'Z' then (c as int + 32) as char else c
  }

  predicate IsUpper(c: char)
  {
    'A' <= c <= 'Z'
  }

  /** `s.lower()` on ASCII: the same length, each character lowered. */
  function Lower(s: string): (r: string)
    ensures |r| == |s|
    ensures forall i :: 0 <= i < |s| ==> r[i] == LowerChar(s[i])
  {
    seq(|s|, i requires 0 <= i < |s| => LowerChar(s[i]))
  }

  lemma LowerHasNoUpper(s: string)
    ensures forall i :: 0 <= i < |s| ==> !IsUpper(Lower(s)[i])
  {
  }

  lemma LowerSlice(s: string, a: nat, b: nat)
    requires a <= b <= |s|
    ensures Lower(s[a..b]) == Lower(s)[a..b]
  {
  }

  /** A slice of a slice is a slice of the whole. */
  lemma SliceOfSlice(s: string, k: nat, m: nat, a: nat, b: nat)
    requires k <= m <= |s| && a <= b <= m - k
    ensures s[k..m][a..b] == s[k + a..k + b]
  {
    forall i | 0 <= i < b - a
      ensures s[k..m][a..b][i] == s[k + a..k + b][i]
    {
      assert s[k..m][a..b][i] == s[k..m][a + i] == s[k + a + i];
    }
  }

  // ---------------------------------------------------------------------------
  // Stripping

  /** `s.lstrip()`: drops the leading whitespace. */
  function StripLeft(s: string): (r: string)
    ensures |r| <= |s| && r == s[|s| - |r|..]
    ensures r == [] || !IsSpace(r[0])
    decreases |s|
  {
    if s != [] && IsSpace(s[0]) then StripLeft(s[1..]) else s
  }

  /** `s.rstrip()`: drops the trailing whitespace. */
  function StripRight(s: string): (r: string)
    ensures |r| <= |s| && r == s[..|r|]
    ensures r == [] || !IsSpace(r[|r| - 1])
    decreases |s|
  {
    if s != [] && IsSpace(s[|s| - 1]) then StripRight(s[..|s| - 1]) else s
  }

  /** `s.strip()`. */
  function Strip(s: string): string
  {
    StripRight(StripLeft(s))
  }

  /** Neither starts nor ends with whitespace. */
  predicate IsStripped(s: string)
  {
    s == [] || (!IsSpace(s[0]) && !IsSpace(s[|s| - 1]))
  }

  lemma StripLeftOfStripped(s: string)
    requires s == [] || !IsSpace(s[0])
    ensures StripLeft(s) == s
  {
  }

  lemma StripRightKeepsHead(s: string)
    requires s != [] && !IsSpace(s[0])
    ensures StripRight(s) != [] && StripRight(s)[0] == s[0]
  {
  }

  /** The result of `strip` is stripped and is a contiguous piece of the input. */
  lemma StripIsStripped(s: string)
    ensures IsStripped(Strip(s))
    ensures |Strip(s)| <= |s|
    ensures Strip(s) == s[|s| - |StripLeft(s)|..][..|Strip(s)|]
  {
    var l := StripLeft(s);
    if l != [] {
      StripRightKeepsHead(l);
    }
  }

  /** Stripping a stripped string changes nothing, so `strip` is idempotent. */
  lemma StripOfStripped(s: string)
    requires IsStripped(s)
    ensures Strip(s) == s
  {
  }

  lemma StripIdempotent(s: string)
    ensures Strip(Strip(s)) == Strip(s)
  {
    StripIsStripped(s);
    StripOfStripped(Strip(s));
  }

  /** `lstrip` removes a run of leading whitespace and stops at the first other character. */
  lemma {:induction false} StripLeftPast(pre: string, u: string)
    requires forall i :: 0 <= i < |pre| ==> IsSpace(pre[i])
    requires u == [] || !IsSpace(u[0])
    ensures StripLeft(pre + u) == u
    decreases |pre|
  {
    if pre != [] {
      assert (pre + u)[1..] == pre[1..] + u;
      StripLeftPast(pre[1..], u);
    }
  }

  /** `rstrip` removes a run of trailing whitespace and stops at the last other character. */
  lemma {:induction false} StripRightPast(u: string, post: string)
    requires forall i :: 0 <= i < |post| ==> IsSpace(post[i])
    requires u == [] || !IsSpace(u[|u| - 1])
    ensures StripRight(u + post) == u
    decreases |post|
  {
    if post != [] {
      assert (u + post)[..|u + post| - 1] == u + post[..|post| - 1];
      StripRightPast(u, post[..|post| - 1]);
    }
  }

  /** Whitespace around a stripped text is exactly what `strip` removes. */
  lemma StripAround(pre: string, t: string, post: string)
    requires forall i :: 0 <= i < |pre| ==> IsSpace(pre[i])
    requires forall i :: 0 <= i < |post| ==> IsSpace(post[i])
    requires t != [] && IsStripped(t)
    ensures Strip(pre + t + post) == t
  {
    assert pre + t + post == pre + (t + post);
    StripLeftPast(pre, t + post);
    StripRightPast(t, post);
  }

  /** What `lstrip` removes is whitespace. */
  lemma {:induction false} StripLeftRemovesSpaces(s: string, i: nat)
    requires i < |s| - |StripLeft(s)|
    ensures IsSpace(s[i])
    decreases |s|
  {
    if i > 0 {
      StripLeftRemovesSpaces(s[1..], i - 1);
    }
  }

  /** What `rstrip` removes is whitespace. */
  lemma {:induction false} StripRightRemovesSpaces(s: string, i: nat)
    requires |StripRight(s)| <= i < |s|
    ensures IsSpace(s[i])
    decreases |s|
  {
    if i < |s| - 1 {
      StripRightRemovesSpaces(s[..|s| - 1], i);
    }
  }

  /** Text made only of whitespace strips to nothing; anything else does not. */
  lemma StripEmptyIff(s: string)
    ensures Strip(s) == [] <==> forall i :: 0 <= i < |s| ==> IsSpace(s[i])
  {
    var l := StripLeft(s);
    if l != [] {
      StripRightKeepsHead(l);
    } else {
      forall i | 0 <= i < |s|
        ensures IsSpace(s[i])
      {
        StripLeftRemovesSpaces(s, i);
      }
    }
  }

  /** The text `strip` keeps, as a slice of `s`. */
  lemma StripIsSlice(s: string)
    ensures |s| - |StripLeft(s)| + |Strip(s)| <= |s|
    ensures Strip(s) == s[|s| - |StripLeft(s)|..|s| - |StripLeft(s)| + |Strip(s)|]
  {
    var l := StripLeft(s);
    var k := |s| - |l|;
    var r := StripRight(l);
    assert r == l[..|r|];
    assert l == s[k..];
    assert l[..|r|] == s[k..k + |r|];
  }

  /** What follows the kept text is whitespace. */
  lemma RightOfStripAreSpaces(s: string)
    ensures forall x :: |s| - |StripLeft(s)| + |Strip(s)| <= x < |s| ==> IsSpace(s[x])
  {
    var l := StripLeft(s);
    var k := |s| - |l|;
    RightStrippedAreSpaces(l);
    assert forall x :: k <= x < |s| ==> s[x] == l[x - k];
  }

  /** Everything `lstrip` removes is whitespace. */
  lemma LeftStrippedAreSpaces(s: string)
    ensures forall x :: 0 <= x < |s| - |StripLeft(s)| ==> IsSpace(s[x])
  {
    forall x | 0 <= x < |s| - |StripLeft(s)|
      ensures IsSpace(s[x])
    {
      StripLeftRemovesSpaces(s, x);
    }
  }

  /** Everything `rstrip` removes is whitespace. */
  lemma RightStrippedAreSpaces(s: string)
    ensures forall x :: |StripRight(s)| <= x < |s| ==> IsSpace(s[x])
  {
    forall x | |StripRight(s)| <= x < |s|
      ensures IsSpace(s[x])
    {
      StripRightRemovesSpaces(s, x);
    }
  }

  // ---------------------------------------------------------------------------
  // Substrings

  predicate IsPrefix(p: string, s: string)
  {
    |p| <= |s| && s[..|p|] == p
  }

  lemma PrefixTrans(a: string, b: string, s: string)
    requires IsPrefix(a, b) && IsPrefix(b, s)
    ensures IsPrefix(a, s)
  {
    assert s[..|a|] == s[..|b|][..|a|];
  }

  /** Stripping keeps a prefix that starts with a non-space and fits in the stripped text. */
  lemma StripKeepsPrefix(p: string, s: string)
    requires IsPrefix(p, s) && p != [] && !IsSpace(p[0]) && |p| <= |Strip(s)|
    ensures IsPrefix(p, Strip(s))
  {
    StripLeftOfStripped(s);
    assert Strip(s) == s[..|Strip(s)|];
    assert Strip(s)[..|p|] == s[..|p|];
  }

  lemma PrefixOfPrefix(a: string, b: string, s: string)
    requires IsPrefix(a + b, s)
    ensures IsPrefix(a, s)
  {
    assert s[..|a|] == (a + b)[..|a|];
  }

  /** `q in s`. */
  predicate Contains(s: string, q: string)
    decreases |s|
  {
    IsPrefix(q, s) || (s != [] && Contains(s[1..], q))
  }

  /** `s.find(q)`: the first index at which `q` occurs, `None` for -1. */
  function Find(s: string, q: string): (r: Option<nat>)
    ensures r.Some? <==> Contains(s, q)
    ensures r.Some? ==> r.value + |q| <= |s| && s[r.value..r.value + |q|] == q
    decreases |s|
  {
    if IsPrefix(q, s) then Some(0)
    else if s == [] then None
    else match Find(s[1..], q)
      case None => None
      case Some(k) => Some(k + 1)
  }

  /** `find` reports the first occurrence: the pattern starts at no earlier index. */
  lemma {:induction false} FindIsFirst(s: string, q: string, j: nat)
    requires Find(s, q).Some? && j < Find(s, q).value
    ensures !IsPrefix(q, s[j..])
    decreases |s|
  {
    if j > 0 {
      assert s[j..] == s[1..][j - 1..];
      FindIsFirst(s[1..], q, j - 1);
    }
  }

  lemma ContainsAt(s: string, q: string, i: nat)
    requires i + |q| <= |s| && s[i..i + |q|] == q
    ensures Contains(s, q)
    decreases i
  {
    if i > 0 {
      assert s[1..][i - 1..i - 1 + |q|] == s[i..i + |q|];
      ContainsAt(s[1..], q, i - 1);
    }
  }

  /** A slice that covers an occurrence of `q` contains `q`. */
  lemma ContainsInSlice(s: string, q: string, p: nat, a: nat, b: nat)
    requires a <= p && p + |q| <= b <= |s| && s[p..p + |q|] == q
    ensures Contains(s[a..b], q)
  {
    SliceOfSlice(s, a, b, p - a, p - a + |q|);
    ContainsAt(s[a..b], q, p - a);
  }

  /** An occurrence is ruled out at every position of a string that does not contain the pattern. */
  lemma {:induction false} NotContainsAt(s: string, q: string, i: nat)
    requires !Contains(s, q) && i + |q| <= |s|
    ensures s[i..i + |q|] != q
    decreases i
  {
    if i == 0 {
      assert !IsPrefix(q, s);
    } else {
      assert s[1..][i - 1..i - 1 + |q|] == s[i..i + |q|];
      NotContainsAt(s[1..], q, i - 1);
    }
  }

  /** A pattern whose first character does not occur in `s` does not occur in `s`. */
  lemma NotContainsWithoutHead(s: string, q: string)
    requires q != [] && q[0] !in s
    ensures !Contains(s, q)
    decreases |s|
  {
    if s != [] {
      NotContainsWithoutHead(s[1..], q);
    }
  }

  // ---------------------------------------------------------------------------
  // Replacement

  /** `s.replace(pat, rep)`: every occurrence, left to right, without overlaps. */
  function Replace(s: string, pat: string, rep: string): string
    requires pat != []
    decreases |s|
  {
    if |s| < |pat| then s
    else if s[..|pat|] == pat then rep + Replace(s[|pat|..], pat, rep)
    else [s[0]] + Replace(s[1..], pat, rep)
  }

  /** Where the pattern does not occur, `replace` changes nothing. */
  lemma {:induction false} ReplaceAbsent(s: string, pat: string, rep: string)
    requires pat != [] && !Contains(s, pat)
    ensures Replace(s, pat, rep) == s
    decreases |s|
  {
    if |s| >= |pat| {
      assert !IsPrefix(pat, s);
      ReplaceAbsent(s[1..], pat, rep);
    }
  }

  /** Where the pattern does not start at the front, the first character is copied through. */
  lemma ReplaceStep(s: string, pat: string, rep: string)
    requires pat != [] && s != [] && !IsPrefix(pat, s)
    ensures Replace(s, pat, rep) == [s[0]] + Replace(s[1..], pat, rep)
  {
    if |s| < |pat| {
      assert Replace(s[1..], pat, rep) == s[1..];
      assert [s[0]] + s[1..] == s;
    }
  }

  /** No occurrence of `pat` starts in the first `n` positions of `s`. */
  predicate NoMatchBefore(s: string, pat: string, n: nat)
  {
    forall j :: 0 <= j < n && j <= |s| ==> !IsPrefix(pat, s[j..])
  }

  lemma NoMatchBeforeTail(s: string, pat: string, n: nat)
    requires s != [] && n > 0 && NoMatchBefore(s, pat, n)
    ensures NoMatchBefore(s[1..], pat, n - 1)
    ensures !IsPrefix(pat, s)
  {
    assert s[0..] == s;
    forall j | 0 <= j < n - 1 && j <= |s[1..]|
      ensures !IsPrefix(pat, s[1..][j..])
    {
      assert s[1..][j..] == s[j + 1..];
    }
  }

  /** `find` reports `i` when the pattern starts at `i` and at no earlier index. */
  lemma {:induction false} FindAt(s: string, q: string, i: nat)
    requires i <= |s| && IsPrefix(q, s[i..]) && NoMatchBefore(s, q, i)
    ensures Find(s, q) == Some(i)
    decreases i
  {
    if i == 0 {
      assert s[0..] == s;
    } else {
      NoMatchBeforeTail(s, q, i);
      assert s[1..][i - 1..] == s[i..];
      FindAt(s[1..], q, i - 1);
    }
  }

  /** Text with no occurrence of the pattern starting in its first `n` positions is copied through unchanged. */
  lemma {:induction false} ReplaceSkips(s: string, n: nat, pat: string, rep: string)
    requires pat != [] && n <= |s| && NoMatchBefore(s, pat, n)
    ensures Replace(s, pat, rep) == s[..n] + Replace(s[n..], pat, rep)
    decreases n
  {
    if n > 0 {
      NoMatchBeforeTail(s, pat, n);
      ReplaceStep(s, pat, rep);
      ReplaceSkips(s[1..], n - 1, pat, rep);
      assert s[1..][n - 1..] == s[n..];
      assert s[..n] == [s[0]] + s[1..][..n - 1];
    }
  }

  /** A pattern occurrence at the front is replaced. */
  lemma ReplaceAtFront(pat: string, t: string, rep: string)
    requires pat != []
    ensures Replace(pat + t, pat, rep) == rep + Replace(t, pat, rep)
  {
    assert (pat + t)[..|pat|] == pat;
    assert (pat + t)[|pat|..] == t;
  }

  // ---------------------------------------------------------------------------
  // Character search

  /** The first index of `c` in `s`. */
  function IndexOf(s: string, c: char): (r: Option<nat>)
    ensures r.Some? <==> c in s
    ensures r.Some? ==> r.value < |s| && s[r.value] == c && c !in s[..r.value]
    decreases |s|
  {
    if s == [] then None
    else if s[0] == c then Some(0)
    else match IndexOf(s[1..], c)
      case None => None
      case Some(k) =>
        assert s[..k + 1] == [s[0]] + s[1..][..k];
        Some(k + 1)
  }

  /** The last index of `c` in `s`. */
  function LastIndexOf(s: string, c: char): (r: Option<nat>)
    ensures r.Some? <==> c in s
    ensures r.Some? ==> r.value < |s| && s[r.value] == c && c !in s[r.value + 1..]
    decreases |s|
  {
    if s == [] then None
    else if s[|s| - 1] == c then Some(|s| - 1)
    else match LastIndexOf(s[..|s| - 1], c)
      case None => None
      case Some(k) =>
        assert s[k + 1..] == s[..|s| - 1][k + 1..] + [s[|s| - 1]];
        Some(k)
  }

  // ---------------------------------------------------------------------------
  // Splitting and joining

  /** `s.split(c)` for a one-character separator: always at least one part. */
  function SplitOn(s: string, c: char): (r: seq<string>)
    ensures |r| >= 1
    decreases |s|
  {
    match IndexOf(s, c)
    case None => [s]
    case Some(k) => [s[..k]] + SplitOn(s[k + 1..], c)
  }

  /** `sep.join(parts)`. */
  function JoinWith(parts: seq<string>, sep: string): string
    decreases |parts|
  {
    if parts == [] then ""
    else if |parts| == 1 then parts[0]
    else parts[0] + sep + JoinWith(parts[1..], sep)
  }

  /** Appending one more part to a join puts exactly one separator before it. */
  lemma {:induction false} JoinWithSnoc(parts: seq<string>, p: string, sep: string)
    ensures JoinWith(parts + [p], sep) == if parts == [] then p else JoinWith(parts, sep) + sep + p
    decreases |parts|
  {
    if |parts| >= 2 {
      assert (parts + [p])[1..] == parts[1..] + [p];
      JoinWithSnoc(parts[1..], p, sep);
    } else if |parts| == 1 {
      assert (parts + [p])[1..] == [p];
    }
  }

  /** A join of non-empty parts is empty only when there are no parts. */
  lemma JoinWithEmptyIff(parts: seq<string>, sep: string)
    requires forall k :: 0 <= k < |parts| ==> parts[k] != []
    ensures JoinWith(parts, sep) == [] <==> parts == []
  {
    if parts != [] {
      assert |JoinWith(parts, sep)| >= |parts[0]|;
    }
  }

  /** The join begins with its first part. */
  lemma JoinWithHead(parts: seq<string>, sep: string)
    requires parts != []
    ensures IsPrefix(parts[0], JoinWith(parts, sep))
  {
  }

  // ---------------------------------------------------------------------------
  // Whitespace collapsing

  /** `re.sub(r'\s+', ' ', s)`: each maximal run of whitespace becomes one space. */
  function CollapseSpaces(s: string): (r: string)
    ensures r == [] <==> s == []
    ensures s != [] && IsSpace(s[0]) ==> r[0] == ' '
    ensures s != [] && !IsSpace(s[0]) ==> r[0] == s[0]
    decreases |s|
  {
    if s == [] then []
    else if IsSpace(s[0]) then " " + CollapseSpaces(StripLeft(s))
    else [s[0]] + CollapseSpaces(s[1..])
  }

  /** Every whitespace character is a plain space and no two of them are adjacent. */
  predicate SingleSpaced(s: string)
  {
    forall i :: 0 <= i < |s| && IsSpace(s[i]) ==> s[i] == ' ' && (i + 1 < |s| ==> !IsSpace(s[i + 1]))
  }

  /** Whitespace collapsing leaves single-spaced text. */
  lemma {:induction false} CollapseIsSingleSpaced(s: string)
    ensures SingleSpaced(CollapseSpaces(s))
    decreases |s|
  {
    if s != [] {
      var r := CollapseSpaces(s);
      if IsSpace(s[0]) {
        var t := StripLeft(s);
        CollapseIsSingleSpaced(t);
        assert r == " " + CollapseSpaces(t);
      } else {
        CollapseIsSingleSpaced(s[1..]);
        assert r == [s[0]] + CollapseSpaces(s[1..]);
      }
    }
  }

  /** Single-spaced text is already collapsed. */
  lemma {:induction false} CollapseOfSingleSpaced(s: string)
    requires SingleSpaced(s)
    ensures CollapseSpaces(s) == s
    decreases |s|
  {
    if s != [] {
      var t := s[1..];
      assert SingleSpaced(t) by {
        SingleSpacedSlice(s, 1, |s|);
      }
      CollapseOfSingleSpaced(t);
      CollapseHead(s);
      assert s == [s[0]] + t;
    }
  }

  /** In single-spaced text the first character is kept as it is and the rest collapsed. */
  lemma CollapseHead(s: string)
    requires s != [] && SingleSpaced(s)
    ensures CollapseSpaces(s) == [s[0]] + CollapseSpaces(s[1..])
  {
    if IsSpace(s[0]) {
      var t := s[1..];
      assert StripLeft(s) == t by {
        assert t == [] || !IsSpace(t[0]);
        StripLeftOfStripped(t);
      }
    }
  }

  lemma SingleSpacedSlice(s: string, a: nat, b: nat)
    requires a <= b <= |s| && SingleSpaced(s)
    ensures SingleSpaced(s[a..b])
  {
    var t := s[a..b];
    forall i | 0 <= i < |t| && IsSpace(t[i])
      ensures t[i] == ' ' && (i + 1 < |t| ==> !IsSpace(t[i + 1]))
    {
      assert t[i] == s[a + i];
      if i + 1 < |t| {
        assert t[i + 1] == s[a + i + 1];
      }
    }
  }

  /** Stripping keeps text single-spaced. */
  lemma StripKeepsSingleSpaced(s: string)
    requires SingleSpaced(s)
    ensures SingleSpaced(Strip(s))
  {
    var l := StripLeft(s);
    SingleSpacedSlice(s, |s| - |l|, |s|);
    SingleSpacedSlice(l, 0, |StripRight(l)|);
  }

  lemma SingleSpacedHasNoNewline(s: string)
    requires SingleSpaced(s)
    ensures '\n' !in s
  {
  }

  lemma CollapsedStripSingleSpaced(x: string)
    ensures SingleSpaced(Strip(CollapseSpaces(x)))
  {
    CollapseIsSingleSpaced(x);
    StripKeepsSingleSpaced(CollapseSpaces(x));
  }

  /** Collapsing then stripping yields text with no newline, single spaces and no surrounding whitespace. */
  lemma CollapsedStripNormalized(x: string)
    ensures '\n' !in Strip(CollapseSpaces(x))
    ensures SingleSpaced(Strip(CollapseSpaces(x)))
    ensures IsStripped(Strip(CollapseSpaces(x)))
  {
    CollapsedStripSingleSpaced(x);
    StripIsStripped(CollapseSpaces(x));
    SingleSpacedHasNoNewline(Strip(CollapseSpaces(x)));
  }

  /** Single-spaced stripped text is left alone by collapsing and stripping. */
  lemma CollapsedStripOfNormalized(s: string)
    requires SingleSpaced(s) && IsStripped(s)
    ensures Strip(CollapseSpaces(s)) == s
  {
    CollapseOfSingleSpaced(s);
    StripOfStripped(s);
  }

  // ---------------------------------------------------------------------------
  // Digits and integers

  /** `s.isdigit()` on ASCII: non-empty and all digits. */
  predicate IsDigits(s: string)
  {
    s != [] && forall i :: 0 <= i < |s| ==> IsDigit(s[i])
  }

  function DigitChar(d: nat): char
    requires d < 10
  {
    ('0' as int + d) as char
  }

  /** `str(n)` for a natural number. */
  function NatToString(n: nat): (r: string)
    ensures IsDigits(r)
    ensures n < 10 <==> |r| == 1
    decreases n
  {
    if n < 10 then [DigitChar(n)] else NatToString(n / 10) + [DigitChar(n % 10)]
  }

  /** `str(i)` for any integer. */
  function IntToString(i: int): string
  {
    if i < 0 then "-" + NatToString(-i) else NatToString(i)
  }

  /** The value of a string of decimal digits. */
  function DigitsValue(s: string): nat
    requires forall i :: 0 <= i < |s| ==> IsDigit(s[i])
    decreases |s|
  {
    if s == [] then 0
    else
      assert IsDigit(s[|s| - 1]);
      DigitsValue(s[..|s| - 1]) * 10 + (s[|s| - 1] as int - '0' as int)
  }

  /** Reading back the digits that `str` writes gives the number again. */
  lemma {:induction false} NatToStringValue(n: nat)
    ensures DigitsValue(NatToString(n)) == n
    decreases n
  {
    if n >= 10 {
      var r := NatToString(n);
      assert r[..|r| - 1] == NatToString(n / 10);
      NatToStringValue(n / 10);
    }
  }

  // ---------------------------------------------------------------------------
  // Two-character sequences

  /** `s` never has `x` immediately followed by `y`. */
  predicate NoPair(s: string, x: char, y: char)
  {
    forall i :: 0 <= i < |s| - 1 ==> !(s[i] == x && s[i + 1] == y)
  }

  lemma NoPairCons(h: char, t: string, x: char, y: char)
    ensures NoPair([h] + t, x, y) <==> NoPair(t, x, y) && (t == [] || !(h == x && t[0] == y))
  {
    var s := [h] + t;
    if NoPair(t, x, y) && (t == [] || !(h == x && t[0] == y)) {
      forall i | 0 <= i < |s| - 1
        ensures !(s[i] == x && s[i + 1] == y)
      {
        if i > 0 {
          assert s[i] == t[i - 1] && s[i + 1] == t[i];
        }
      }
    }
    if NoPair(s, x, y) {
      forall i | 0 <= i < |t| - 1
        ensures !(t[i] == x && t[i + 1] == y)
      {
        assert s[i + 1] == t[i] && s[i + 2] == t[i + 1];
      }
      if t != [] {
        assert s[0] == h && s[1] == t[0];
      }
    }
  }

  lemma NoPairSlice(s: string, a: nat, b: nat, x: char, y: char)
    requires a <= b <= |s| && NoPair(s, x, y)
    ensures NoPair(s[a..b], x, y)
  {
    var t := s[a..b];
    forall i | 0 <= i < |t| - 1
      ensures !(t[i] == x && t[i + 1] == y)
    {
      assert t[i] == s[a + i] && t[i + 1] == s[a + i + 1];
    }
  }

  lemma NoPairStrip(s: string, x: char, y: char)
    requires NoPair(s, x, y)
    ensures NoPair(Strip(s), x, y)
  {
    var l := StripLeft(s);
    NoPairSlice(s, |s| - |l|, |s|, x, y);
    NoPairSlice(l, 0, |StripRight(l)|, x, y);
  }

  /** A two-character pattern is absent exactly when its pair never occurs. */
  lemma {:induction false} NoPairNotContains(s: string, x: char, y: char)
    requires NoPair(s, x, y)
    ensures !Contains(s, [x, y])
    decreases |s|
  {
    if |s| >= 2 {
      assert s[..2] == [s[0], s[1]];
    }
    if s != [] {
      NoPairSlice(s, 1, |s|, x, y);
      NoPairNotContains(s[1..], x, y);
    }
  }

  /** The first character `Replace` produces. */
  lemma ReplaceHead(s: string, pat: string, r: char)
    requires pat != [] && s != []
    ensures Replace(s, pat, [r]) != []
    ensures Replace(s, pat, [r])[0] == (if IsPrefix(pat, s) then r else s[0])
  {
    if !IsPrefix(pat, s) {
      ReplaceStep(s, pat, [r]);
    }
  }

  /**
   * Replacing the pair `a c` by a single character `r` leaves no pair `x y`
   * behind, provided `r` is neither `x` nor `y` and either the input has no
   * such pair or the pair is the one being replaced.
   */
  lemma {:induction false} ReplacePairLeavesNoPair(s: string, a: char, c: char, r: char, x: char, y: char)
    requires r != x && r != y
    requires NoPair(s, x, y) || (x == a && y == c)
    ensures NoPair(Replace(s, [a, c], [r]), x, y)
    decreases |s|
  {
    var pat := [a, c];
    if |s| >= 2 {
      if s[..2] == pat {
        var t := s[2..];
        if NoPair(s, x, y) {
          NoPairSlice(s, 2, |s|, x, y);
        }
        ReplacePairLeavesNoPair(t, a, c, r, x, y);
        NoPairCons(r, Replace(t, pat, [r]), x, y);
      } else {
        var t := s[1..];
        if NoPair(s, x, y) {
          NoPairSlice(s, 1, |s|, x, y);
        }
        ReplacePairLeavesNoPair(t, a, c, r, x, y);
        ReplaceHead(t, pat, r);
        assert s[..2] == [s[0], s[1]];
        assert !(s[0] == x && s[1] == y);
        NoPairCons(s[0], Replace(t, pat, [r]), x, y);
      }
    } else if |s| == 1 {
      assert !(x == a && y == c) || NoPair(s, x, y);
    }
  }

  // ---------------------------------------------------------------------------
  // Split after join

  lemma IndexOfAfter(p: string, c: char, rest: string)
    requires c !in p
    ensures IndexOf(p + [c] + rest, c) == Some(|p|)
    decreases |p|
  {
    if p != [] {
      assert (p + [c] + rest)[1..] == p[1..] + [c] + rest;
      IndexOfAfter(p[1..], c, rest);
    }
  }

  lemma SplitOnAfter(p: string, c: char, rest: string)
    requires c !in p
    ensures SplitOn(p + [c] + rest, c) == [p] + SplitOn(rest, c)
  {
    var s := p + [c] + rest;
    IndexOfAfter(p, c, rest);
    assert s[..|p|] == p;
    assert s[|p| + 1..] == rest;
  }

  /** Splitting a join on its one-character separator gives the parts back when no part holds the separator. */
  lemma {:induction false} SplitJoinRoundTrip(parts: seq<string>, c: char)
    requires parts != []
    requires forall k :: 0 <= k < |parts| ==> c !in parts[k]
    ensures SplitOn(JoinWith(parts, [c]), c) == parts
    decreases |parts|
  {
    if |parts| == 1 {
      assert IndexOf(parts[0], c) == None;
    } else {
      SplitOnAfter(parts[0], c, JoinWith(parts[1..], [c]));
      SplitJoinRoundTrip(parts[1..], c);
      assert parts == [parts[0]] + parts[1..];
    }
  }

  function Min(a: int, b: int): int
  {
    if a <= b then a else b
  }

  function Max(a: int, b: int): int
  {
    if a >= b then a else b
  }
}
