/**
 * The Python string operations the core relies on: `str.strip()`, `str.rfind`,
 * `str.lower()` and the decimal rendering of a positive `int` in an f-string.
 */
module Text {

  function Min(a: int, b: int): int { if a <= b then a else b }

  // ---------------------------------------------------------------------------
  // Whitespace and str.strip()
  // ---------------------------------------------------------------------------

  /** The characters of the ASCII range that Python's `str.isspace` accepts:
      '\t', '\n', '\x0b', '\x0c', '\r', the separators '\x1c'..'\x1f', and ' '. */
  predicate IsSpace(c: char) {
    c == ' ' || ('\t' <= c <= '\r') || ('\U{1C}' <= c <= '\U{1F}')
  }

  /** Every character of `s` in the index range `[i, j)` is whitespace. */
  predicate SpaceBetween(s: string, i: int, j: int) {
    forall k :: i <= k < j && 0 <= k < |s| ==> IsSpace(s[k])
  }

  predicate AllSpace(s: string) {
    SpaceBetween(s, 0, |s|)
  }

  /** The first index at or after `i` that holds no whitespace, or `|s|`. */
  function SkipSpace(s: string, i: nat): (r: nat)
    requires i <= |s|
    ensures i <= r <= |s|
    decreases |s| - i
  {
    if i < |s| && IsSpace(s[i]) then SkipSpace(s, i + 1) else i
  }

  /** The leading whitespace is a run of whitespace that a non-whitespace character ends. */
  lemma {:induction false} SkipSpaceSpec(s: string, i: nat)
    requires i <= |s|
    ensures SpaceBetween(s, i, SkipSpace(s, i))
    ensures SkipSpace(s, i) < |s| ==> !IsSpace(s[SkipSpace(s, i)])
    decreases |s| - i
  {
    if i < |s| && IsSpace(s[i]) {
      SkipSpaceSpec(s, i + 1);
    }
  }

  /** The last index at or before `j`, and not below `lo`, that follows a character
      that is no whitespace, or `lo`. */
  function BackSpace(s: string, lo: nat, j: nat): (r: nat)
    requires lo <= j <= |s|
    ensures lo <= r <= j
    decreases j
  {
    if lo < j && IsSpace(s[j - 1]) then BackSpace(s, lo, j - 1) else j
  }

  /** The trailing whitespace is a run of whitespace that a non-whitespace character starts. */
  lemma {:induction false} BackSpaceSpec(s: string, lo: nat, j: nat)
    requires lo <= j <= |s|
    ensures SpaceBetween(s, BackSpace(s, lo, j), j)
    ensures lo < BackSpace(s, lo, j) ==> !IsSpace(s[BackSpace(s, lo, j) - 1])
    decreases j
  {
    if lo < j && IsSpace(s[j - 1]) {
      BackSpaceSpec(s, lo, j - 1);
    }
  }

  /** Where the result of `strip` starts in `s`. */
  function StripStart(s: string): nat {
    SkipSpace(s, 0)
  }

  /** Where the result of `strip` ends in `s`. */
  function StripEnd(s: string): nat {
    BackSpace(s, SkipSpace(s, 0), |s|)
  }

  /** `s.strip()`: `s` without its leading and trailing whitespace. */
  function Strip(s: string): (r: string)
    ensures |r| <= |s|
  {
    s[StripStart(s)..StripEnd(s)]
  }

  /** What `strip` leaves: the infix of `s` with only whitespace around it, that
      neither starts nor ends with whitespace, and that is empty exactly when all of
      `s` is whitespace in front of it. */
  lemma StripSpec(s: string)
    ensures StripStart(s) <= StripEnd(s) <= |s| && Strip(s) == s[StripStart(s)..StripEnd(s)]
    ensures SpaceBetween(s, 0, StripStart(s)) && SpaceBetween(s, StripEnd(s), |s|)
    ensures Strip(s) == [] || (!IsSpace(Strip(s)[0]) && !IsSpace(Strip(s)[|Strip(s)| - 1]))
    ensures Strip(s) == [] <==> StripStart(s) == |s|
  {
    var a := SkipSpace(s, 0);
    var b := BackSpace(s, a, |s|);
    SkipSpaceSpec(s, 0);
    BackSpaceSpec(s, a, |s|);
    var r := Strip(s);
    if r != [] {
      assert r[0] == s[a] && r[|r| - 1] == s[b - 1];
    }
    if a < |s| {
      assert a < b;
    }
  }

  /** A string that neither starts nor ends with whitespace is left alone by `strip`. */
  lemma StripTrimmed(s: string)
    requires s == [] || (!IsSpace(s[0]) && !IsSpace(s[|s| - 1]))
    ensures Strip(s) == s
  {
    if s != [] {
      assert SkipSpace(s, 0) == 0;
      assert BackSpace(s, 0, |s|) == |s|;
    }
  }

  lemma StripIdempotent(s: string)
    ensures Strip(Strip(s)) == Strip(s)
  {
    StripSpec(s);
    StripTrimmed(Strip(s));
  }

  /** `strip` yields the empty string exactly for the all-whitespace strings. */
  lemma StripEmptyIff(s: string)
    ensures Strip(s) == [] <==> AllSpace(s)
  {
    StripSpec(s);
    var a := StripStart(s);
    if a < |s| {
      assert !IsSpace(s[a]);
    }
  }

  /** Every character of `s` that is no whitespace survives `strip`. Used for text
      made of non-whitespace characters only. */
  lemma StripNoSpace(s: string)
    requires forall k :: 0 <= k < |s| ==> !IsSpace(s[k])
    ensures Strip(s) == s
  {
    StripTrimmed(s);
  }

  // ---------------------------------------------------------------------------
  // str.rfind
  // ---------------------------------------------------------------------------

  /** `pat` occurs in `s` starting at index `i`. */
  predicate OccursAt(s: string, pat: string, i: int) {
    0 <= i && i + |pat| <= |s| && s[i..i + |pat|] == pat
  }

  /** `s.rfind(pat)`: the highest index at which `pat` occurs in `s`, or -1 when it
      occurs nowhere (`RFindSpec`). */
  function RFind(s: string, pat: string): (r: int)
    ensures -1 <= r && (r >= 0 ==> r + |pat| <= |s|)
  {
    RFindBelow(s, pat, if |s| - |pat| < 0 then -1 else |s| - |pat|)
  }

  /** The search behind `RFind`: the highest occurrence at an index `<= i`. */
  function RFindBelow(s: string, pat: string, i: int): (r: int)
    requires i == -1 || (0 <= i && i + |pat| <= |s|)
    ensures -1 <= r <= i
    decreases i + 1
  {
    if i < 0 then -1
    else if s[i..i + |pat|] == pat then i
    else RFindBelow(s, pat, i - 1)
  }

  lemma {:induction false} RFindBelowSpec(s: string, pat: string, i: int)
    requires i == -1 || (0 <= i && i + |pat| <= |s|)
    requires forall j :: OccursAt(s, pat, j) ==> j <= i
    ensures RFindBelow(s, pat, i) == -1 || OccursAt(s, pat, RFindBelow(s, pat, i))
    ensures forall j :: OccursAt(s, pat, j) ==> j <= RFindBelow(s, pat, i)
    decreases i + 1
  {
    if i >= 0 && s[i..i + |pat|] != pat {
      RFindBelowSpec(s, pat, i - 1);
    }
  }

  /** `rfind` returns -1 or an index where `pat` occurs, and no occurrence lies above it. */
  lemma RFindSpec(s: string, pat: string)
    ensures RFind(s, pat) == -1 || OccursAt(s, pat, RFind(s, pat))
    ensures forall j :: OccursAt(s, pat, j) ==> j <= RFind(s, pat)
  {
    RFindBelowSpec(s, pat, if |s| - |pat| < 0 then -1 else |s| - |pat|);
  }

  /** A pattern whose first character is absent from `s` is not found. */
  lemma RFindAbsent(s: string, pat: string)
    requires |pat| > 0
    requires forall k :: 0 <= k < |s| ==> s[k] != pat[0]
    ensures RFind(s, pat) == -1
  {
    forall j ensures !OccursAt(s, pat, j) {
      if 0 <= j && j + |pat| <= |s| {
        assert s[j..j + |pat|][0] == s[j];
      }
    }
    RFindSpec(s, pat);
  }

  /** A pattern that occurs at `i` and at no higher index is found at `i`. */
  lemma RFindLast(s: string, pat: string, i: int)
    requires OccursAt(s, pat, i)
    requires forall j :: i < j && OccursAt(s, pat, j) ==> false
    ensures RFind(s, pat) == i
  {
    RFindSpec(s, pat);
  }

  /** An occurrence inside a slice is an occurrence in the whole string, shifted. */
  lemma OccursInSlice(t: string, lo: int, hi: int, pat: string, i: int)
    requires 0 <= lo <= hi <= |t|
    requires OccursAt(t[lo..hi], pat, i)
    ensures OccursAt(t, pat, lo + i)
  {
    var u, v := t[lo..hi][i..i + |pat|], t[lo + i..lo + i + |pat|];
    forall k | 0 <= k < |pat| ensures u[k] == v[k] {
    }
    assert u == v;
  }

  // ---------------------------------------------------------------------------
  // str.lower()
  // ---------------------------------------------------------------------------

  function LowerChar(c: char): char {
    if 'A' <= c <= 'Z' then (c as int + 32) as char else c
  }

  /** `s.lower()` on ASCII letters; every other character is kept. */
  function Lower(s: string): (r: string)
    ensures |r| == |s|
  {
    if s == [] then [] else [LowerChar(s[0])] + Lower(s[1..])
  }

  /** `lower` maps every character on its own. */
  lemma {:induction false} LowerSpec(s: string)
    ensures forall i :: 0 <= i < |s| ==> Lower(s)[i] == LowerChar(s[i])
  {
    if s != [] {
      LowerSpec(s[1..]);
      forall i | 0 < i < |s| ensures Lower(s)[i] == LowerChar(s[i]) {
        assert Lower(s)[i] == Lower(s[1..])[i - 1];
      }
    }
  }

  // ---------------------------------------------------------------------------
  // Decimal rendering of naturals (f"{i}")
  // ---------------------------------------------------------------------------

  predicate IsDigit(c: char) { '0' as int <= c as int <= '9' as int }

  function DigitChar(d: int): (c: char)
    requires 0 <= d < 10
    ensures IsDigit(c) && c as int - '0' as int == d
  {
    ('0' as int + d) as char
  }

  /** The decimal digits of `n`, most significant first, without leading zeros. */
  function Decimal(n: nat): (r: string)
    ensures |r| > 0 && forall k :: 0 <= k < |r| ==> IsDigit(r[k])
  {
    if n < 10 then [DigitChar(n)] else Decimal(n / 10) + [DigitChar(n % 10)]
  }

  /** The value of a string of decimal digits. */
  function ParseDecimal(s: string): nat
    requires forall k :: 0 <= k < |s| ==> IsDigit(s[k])
  {
    if s == [] then 0
    else assert IsDigit(s[|s| - 1]); 10 * ParseDecimal(s[..|s| - 1]) + (s[|s| - 1] as int - '0' as int)
  }

  /** Reading back the rendering of `n` gives `n`; so distinct numbers render distinctly. */
  lemma {:induction false} ParseDecimalOfDecimal(n: nat)
    ensures ParseDecimal(Decimal(n)) == n
  {
    var s := Decimal(n);
    if n >= 10 {
      assert s[..|s| - 1] == Decimal(n / 10);
      ParseDecimalOfDecimal(n / 10);
    } else {
      assert s[..|s| - 1] == [];
    }
  }

  lemma DecimalInjective(i: nat, j: nat)
    requires Decimal(i) == Decimal(j)
    ensures i == j
  {
    ParseDecimalOfDecimal(i);
    ParseDecimalOfDecimal(j);
  }
}
