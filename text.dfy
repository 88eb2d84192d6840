/** The three string operations of the Go library that the zone-file generator
    relies on, written out: `strings.ReplaceAll` with an empty replacement
    (here `RemoveAll`), `strings.TrimRight` with a one-character cutset
    (`TrimRight`) and the `%d` verb of `fmt.Sprintf` (`Decimal`). */
module Text {
  import opened Wrappers

  /** True when `pat` occurs in `s` starting at index `i`. */
  predicate OccursAt(s: string, pat: string, i: nat)
  {
    i + |pat| <= |s| && s[i..i + |pat|] == pat
  }

  /** `pat` occurs nowhere in `s`. */
  ghost predicate Absent(s: string, pat: string)
  {
    forall j: nat :: !OccursAt(s, pat, j)
  }

  /** `i` is the leftmost occurrence of `pat` in `s`. */
  predicate LeftmostAt(s: string, pat: string, i: nat)
  {
    OccursAt(s, pat, i) && forall j: nat :: j < i ==> !OccursAt(s, pat, j)
  }

  /** `strings.Index(s, pat)`, with `None` for its `-1`: the scan that
      `strings.Replace` repeats to find the next occurrence. */
  function Index(s: string, pat: string): (r: Option<nat>)
    ensures r.Some? ==> r.value + |pat| <= |s|
    decreases |s|
  {
    if |s| < |pat| then None
    else if s[..|pat|] == pat then Some(0)
    else
      match Index(s[1..], pat)
      case None => None
      case Some(k) => Some(k + 1)
  }

  /** An occurrence in the tail of `s` is an occurrence in `s`, one place
      further on. */
  lemma OccursAtTail(s: string, pat: string, j: nat)
    requires |s| > 0
    ensures OccursAt(s[1..], pat, j) <==> OccursAt(s, pat, j + 1)
  {
    if j + 1 + |pat| <= |s| {
      assert s[1..][j..j + |pat|] == s[j + 1..j + 1 + |pat|];
    }
  }

  /** `Index` finds the leftmost occurrence, and finds none exactly when
      there is none. */
  lemma {:induction false} IndexCorrect(s: string, pat: string)
    ensures Index(s, pat).Some? ==> LeftmostAt(s, pat, Index(s, pat).value)
    ensures Index(s, pat).None? <==> Absent(s, pat)
    decreases |s|
  {
    if |s| < |pat| {
      assert Absent(s, pat);
    } else if s[..|pat|] == pat {
      assert OccursAt(s, pat, 0);
    } else {
      IndexCorrect(s[1..], pat);
      assert !OccursAt(s, pat, 0);
      match Index(s[1..], pat)
      case None =>
        forall j: nat ensures !OccursAt(s, pat, j) {
          if j > 0 { OccursAtTail(s, pat, j - 1); }
        }
      case Some(k) =>
        OccursAtTail(s, pat, k);
        forall j: nat | j < k + 1 ensures !OccursAt(s, pat, j) {
          if j > 0 { OccursAtTail(s, pat, j - 1); }
        }
    }
  }

  /** `strings.ReplaceAll(s, pat, "")`, as `strings.Replace` runs it: find
      the leftmost occurrence, keep the text before it, drop the occurrence
      and go on with the text after it. Every occurrence that does not
      overlap an earlier deleted one is deleted; the characters on either
      side of a deletion are never rejoined and scanned again. */
  function RemoveAll(s: string, pat: string): (r: string)
    requires |pat| > 0
    ensures |r| <= |s|
    decreases |s|
  {
    match Index(s, pat)
    case None => s
    case Some(i) => s[..i] + RemoveAll(s[i + |pat|..], pat)
  }

  /** Removing changes the string exactly when the pattern occurs in it. */
  lemma RemoveAllUnchangedIff(s: string, pat: string)
    requires |pat| > 0
    ensures RemoveAll(s, pat) == s <==> Absent(s, pat)
  {
    IndexCorrect(s, pat);
    match Index(s, pat)
    case None =>
    case Some(i) =>
      assert |RemoveAll(s, pat)| <= i + (|s| - i - |pat|);
  }

  /** Removing adds no character: one absent from `s` is absent from the
      result. */
  lemma {:induction false} RemoveAllAddsNothing(s: string, pat: string, c: char)
    requires |pat| > 0 && c !in s
    ensures c !in RemoveAll(s, pat)
    decreases |s|
  {
    match Index(s, pat)
    case None =>
    case Some(i) =>
      var after := s[i + |pat|..];
      assert forall k :: 0 <= k < |after| ==> after[k] == s[k + i + |pat|];
      RemoveAllAddsNothing(after, pat, c);
      assert forall k :: 0 <= k < i ==> s[..i][k] == s[k];
  }

  /** A single pass: an occurrence assembled from the two sides of a deleted
      one survives. */
  lemma RemoveAllIsSinglePass()
    ensures RemoveAll("::splatsplat", ":splat") == ":splat"
  {
    var s := "::splatsplat";
    assert s[..6][1] != ":splat"[1];
    assert s[1..][..6] == ":splat";
    assert Index(s, ":splat") == Some(1);
    assert s[7..] == "splat";
    assert RemoveAll("splat", ":splat") == "splat";
  }

  /** Regrouping a concatenation, stated over plain variables. Calling it
      where the operands are large terms (a whole zone-file text and a
      line) spares the verifier from proving the regrouping by comparing
      the terms element by element. */
  lemma ConcatAssoc(a: string, b: string, c: string)
    ensures a + (b + c) == (a + b) + c
  {
  }

  /** `strings.TrimRight(s, [c])`: drops every trailing `c`. */
  function TrimRight(s: string, c: char): (r: string)
    ensures r <= s
    ensures r == [] || r[|r| - 1] != c
    ensures forall i :: |r| <= i < |s| ==> s[i] == c
    decreases |s|
  {
    if s != [] && s[|s| - 1] == c then TrimRight(s[..|s| - 1], c) else s
  }

  /** The three `ensures` of `TrimRight` determine its result: the longest
      prefix not ending in `c` that is followed only by `c`. */
  lemma TrimRightUnique(s: string, c: char, t: string)
    requires t <= s
    requires t == [] || t[|t| - 1] != c
    requires forall i :: |t| <= i < |s| ==> s[i] == c
    ensures t == TrimRight(s, c)
  {
    var r := TrimRight(s, c);
    assert |t| > 0 ==> s[|t| - 1] != c;
    assert |r| > 0 ==> s[|r| - 1] != c;
    assert |r| == |t|;
  }

  /** Trimming twice is trimming once. */
  lemma TrimRightIdempotent(s: string, c: char)
    ensures TrimRight(TrimRight(s, c), c) == TrimRight(s, c)
  {
  }

  // ---------------------------------------------------------------------
  // Decimal rendering, the `%d` verb

  predicate IsDigit(c: char)
  {
    '0' <= c <= '9'
  }

  predicate AllDigits(s: string)
  {
    forall i :: 0 <= i < |s| ==> IsDigit(s[i])
  }

  function DigitChar(d: nat): (c: char)
    requires d < 10
    ensures IsDigit(c)
  {
    (d + '0' as int) as char
  }

  function DigitValue(c: char): (d: nat)
    requires IsDigit(c)
    ensures d < 10
  {
    c as int - '0' as int
  }

  /** The digits of `n`, most significant first, without leading zeros. */
  function NatDigits(n: nat): (r: string)
    ensures |r| > 0 && AllDigits(r)
    ensures r[0] == '0' ==> n == 0 && r == "0"
    decreases n
  {
    if n < 10 then [DigitChar(n)] else NatDigits(n / 10) + [DigitChar(n % 10)]
  }

  /** The number a string of digits denotes. */
  function DigitsValue(s: string): nat
    requires AllDigits(s)
    decreases |s|
  {
    if s == [] then 0 else DigitsValue(s[..|s| - 1]) * 10 + DigitValue(s[|s| - 1])
  }

  lemma {:induction false} NatDigitsRoundTrip(n: nat)
    ensures DigitsValue(NatDigits(n)) == n
    decreases n
  {
    var s := NatDigits(n);
    if n >= 10 {
      NatDigitsRoundTrip(n / 10);
      assert s[..|s| - 1] == NatDigits(n / 10);
    }
  }

  /** `fmt.Sprintf("%d", n)`: a minus sign for a negative number, then the
      digits of its magnitude. */
  function Decimal(n: int): (r: string)
  {
    if n < 0 then "-" + NatDigits(-n) else NatDigits(n)
  }

  /** Reads back what `Decimal` writes. */
  function ParseDecimal(s: string): Option<int>
  {
    if s == [] then None
    else if s[0] == '-' then
      if |s| > 1 && AllDigits(s[1..]) then Some(0 - DigitsValue(s[1..])) else None
    else if AllDigits(s) then Some(DigitsValue(s) as int)
    else None
  }

  lemma DecimalRoundTrip(n: int)
    ensures ParseDecimal(Decimal(n)) == Some(n)
  {
    if n < 0 {
      assert Decimal(n)[1..] == NatDigits(-n);
      NatDigitsRoundTrip(-n);
    } else {
      NatDigitsRoundTrip(n);
    }
  }

  /** Distinct numbers are rendered differently. */
  lemma DecimalInjective(m: int, n: int)
    requires Decimal(m) == Decimal(n)
    ensures m == n
  {
    DecimalRoundTrip(m);
    DecimalRoundTrip(n);
  }

  /** A rendered number holds no tab and no newline: it stays one field. */
  lemma DecimalIsOneField(n: int)
    ensures '\t' !in Decimal(n) && '\n' !in Decimal(n)
    ensures |Decimal(n)| > 0
  {
    var d := NatDigits(if n < 0 then -n else n);
    assert forall i :: 0 <= i < |d| ==> IsDigit(d[i]);
  }
}
