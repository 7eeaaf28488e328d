/**
 * String operations the transport is written with: substring search (`in`,
 * `find`, `index`), Python slicing with negative indices, ASCII case mapping,
 * decimal formatting and parsing, and `strip` of quote characters.
 */
module Text {
  import opened Wrappers

  /** `pat` occurs in `s` starting at index `k`. */
  predicate OccursAt(s: string, pat: string, k: nat)
  {
    k + |pat| <= |s| && s[k..k + |pat|] == pat
  }

  /** The first `n` characters of `pat` occur in `s` at `k`, compared one character at a time. */
  predicate Agrees(s: string, pat: string, k: nat, n: nat)
    requires n <= |pat| && k + |pat| <= |s|
  {
    n == 0 || (s[k + n - 1] == pat[n - 1] && Agrees(s, pat, k, n - 1))
  }

  lemma {:induction false} AgreesIsOccurrence(s: string, pat: string, k: nat, n: nat)
    requires n <= |pat| && k + |pat| <= |s|
    ensures Agrees(s, pat, k, n) <==> s[k..k + n] == pat[..n]
  {
    if n > 0 {
      AgreesIsOccurrence(s, pat, k, n - 1);
      assert s[k..k + n] == s[k..k + n - 1] + [s[k + n - 1]];
      assert pat[..n] == pat[..n - 1] + [pat[n - 1]];
    }
  }

  /** The first index at or after `from` where `pat` occurs in `s`, if any. */
  function FindFrom(s: string, pat: string, from: nat): (r: Option<nat>)
    ensures r.Some? ==> from <= r.value && OccursAt(s, pat, r.value)
    decreases |s| - from
  {
    if from + |pat| > |s| then None
    else if Agrees(s, pat, from, |pat|) then
      AgreesIsOccurrence(s, pat, from, |pat|);
      assert pat[..|pat|] == pat;
      Some(from)
    else FindFrom(s, pat, from + 1)
  }

  /** `FindFrom` reports the first occurrence at or after `from`, and None only when there is none. */
  lemma {:induction false} FindFromFirst(s: string, pat: string, from: nat)
    ensures var r := FindFrom(s, pat, from);
      && (r.Some? ==> forall j: nat :: from <= j < r.value ==> !OccursAt(s, pat, j))
      && (r.None? ==> forall j: nat :: from <= j ==> !OccursAt(s, pat, j))
    decreases |s| - from
  {
    if from + |pat| <= |s| {
      AgreesIsOccurrence(s, pat, from, |pat|);
      assert pat[..|pat|] == pat;
      if !Agrees(s, pat, from, |pat|) {
        FindFromFirst(s, pat, from + 1);
      }
    }
  }

  /** Python's `s.index(pat)` (None where it raises ValueError) and `s.find(pat)` without the -1. */
  function Find(s: string, pat: string): (r: Option<nat>)
    ensures r.Some? ==> OccursAt(s, pat, r.value)
  {
    FindFrom(s, pat, 0)
  }

  /** `Find` reports the first occurrence, and None only when there is none. */
  lemma FindFirst(s: string, pat: string)
    ensures Find(s, pat).Some? ==> forall j: nat :: j < Find(s, pat).value ==> !OccursAt(s, pat, j)
    ensures Find(s, pat).None? ==> forall j: nat :: !OccursAt(s, pat, j)
  {
    FindFromFirst(s, pat, 0);
  }

  /** Python's `pat in s`. */
  predicate Contains(s: string, pat: string)
  {
    Find(s, pat).Some?
  }

  /** An occurrence with none before it is the one `Find` reports. */
  lemma FindIsFirst(s: string, pat: string, k: nat)
    requires OccursAt(s, pat, k)
    requires forall j: nat :: j < k ==> !OccursAt(s, pat, j)
    ensures Find(s, pat) == Some(k)
  {
    FindFirst(s, pat);
  }

  /** Any occurrence makes `pat in s` true, and `Find` reports it or an earlier one. */
  lemma OccurrenceIsFound(s: string, pat: string, k: nat)
    requires OccursAt(s, pat, k)
    ensures Contains(s, pat) && Find(s, pat).value <= k
  {
    FindFirst(s, pat);
  }

  /** Concatenation regrouped. */
  lemma Associate<T>(a: seq<T>, b: seq<T>, c: seq<T>)
    ensures a + (b + c) == a + b + c
  {
  }

  /** Python's `s.endswith(suffix)`. */
  predicate EndsWith(s: string, suffix: string)
  {
    |suffix| <= |s| && s[|s| - |suffix|..] == suffix
  }

  /** Python's `s.find(pat)`: the first index, or -1. */
  function PyFind(s: string, pat: string): (r: int)
    ensures -1 <= r
    ensures r == -1 <==> !Contains(s, pat)
    ensures r >= 0 ==> OccursAt(s, pat, r)
    ensures r >= 0 ==> forall j: nat :: j < r ==> !OccursAt(s, pat, j)
  {
    FindFirst(s, pat);
    match Find(s, pat)
    case Some(k) => k
    case None => -1
  }

  /** How Python turns a slice bound into an index: negative counts from the end, then clamp. */
  function SliceBound(i: int, n: nat): (r: nat)
    ensures r <= n
    ensures 0 <= i <= n ==> r == i
    ensures i < 0 && n + i >= 0 ==> r == n + i
  {
    if i < 0 then (if n + i < 0 then 0 else n + i)
    else if i > n then n
    else i
  }

  /** Python's `s[lo:hi]` on a string, for any integer bounds. */
  function PySlice(s: string, lo: int, hi: int): (r: string)
    ensures |r| <= |s|
    ensures 0 <= lo <= hi <= |s| ==> r == s[lo..hi]
    ensures 0 <= lo && -|s| <= hi < 0 && lo <= |s| + hi ==> r == s[lo..|s| + hi]
    ensures 0 <= hi <= lo ==> r == []
    ensures 0 <= lo && hi < 0 && |s| + hi <= lo ==> r == []
    ensures 0 <= lo <= |s| <= hi ==> r == s[lo..]
  {
    var a := SliceBound(lo, |s|);
    var b := SliceBound(hi, |s|);
    if a < b then s[a..b] else []
  }

  /** Python's `s[lo:]`. */
  function PySliceFrom(s: string, lo: int): (r: string)
    ensures 0 <= lo <= |s| ==> r == s[lo..]
    ensures lo > |s| ==> r == []
  {
    PySlice(s, lo, |s|)
  }

  // ---- ASCII case mapping (Python's lower() and upper() on ASCII text) ----

  function LowerChar(c: char): char
  {
    if 'A' <= c <= 'Z' then (c as int + 32) as char else c
  }

  function UpperChar(c: char): char
  {
    if 'a' <= c <= 'z' then (c as int - 32) as char else c
  }

  function ToLower(s: string): (r: string)
    ensures |r| == |s|
    ensures forall i :: 0 <= i < |s| ==> r[i] == LowerChar(s[i])
  {
    seq(|s|, i requires 0 <= i < |s| => LowerChar(s[i]))
  }

  function ToUpper(s: string): (r: string)
    ensures |r| == |s|
    ensures forall i :: 0 <= i < |s| ==> r[i] == UpperChar(s[i])
  {
    seq(|s|, i requires 0 <= i < |s| => UpperChar(s[i]))
  }

  /** Lower-casing works character by character, so it distributes over concatenation. */
  lemma ToLowerAppend(a: string, b: string)
    ensures ToLower(a + b) == ToLower(a) + ToLower(b)
  {
    assert forall i :: 0 <= i < |a + b| ==> ToLower(a + b)[i] == (ToLower(a) + ToLower(b))[i];
  }

  /** Lower-casing commutes with slicing. */
  lemma ToLowerSlice(s: string, a: nat, b: nat)
    requires a <= b <= |s|
    ensures ToLower(s)[a..b] == ToLower(s[a..b])
  {
  }

  /** An occurrence of `pat` in `s` is an occurrence of the lower-cased `pat` in the lower-cased `s`. */
  lemma ToLowerOccurs(s: string, pat: string, k: nat)
    requires OccursAt(s, pat, k)
    ensures OccursAt(ToLower(s), ToLower(pat), k)
  {
    assert forall i :: 0 <= i < |pat| ==> ToLower(s)[k + i] == ToLower(pat)[i] by {
      forall i | 0 <= i < |pat| ensures ToLower(s)[k + i] == ToLower(pat)[i] {
        assert s[k + i] == s[k..k + |pat|][i];
      }
    }
    assert ToLower(s)[k..k + |pat|] == ToLower(pat);
  }

  // ---- Decimal numbers: f"{n}" and int(s) restricted to plain digit strings ----

  predicate IsDigit(c: char)
  {
    '0' <= c <= '9'
  }

  predicate AllDigits(s: string)
  {
    forall i :: 0 <= i < |s| ==> IsDigit(s[i])
  }

  function DigitChar(d: nat): (c: char)
    requires d < 10
    ensures IsDigit(c) && c as int - '0' as int == d
  {
    ('0' as int + d) as char
  }

  /** Python's f"{n}" for a non-negative integer: decimal digits, no leading zeros. */
  function NatToDecimal(n: nat): (r: string)
    ensures |r| > 0 && AllDigits(r)
    ensures |r| > 1 ==> r[0] != '0'
  {
    if n < 10 then [DigitChar(n)] else NatToDecimal(n / 10) + [DigitChar(n % 10)]
  }

  /** The value of a string of decimal digits, most significant first. */
  function DigitsValue(s: string): nat
    requires AllDigits(s)
  {
    if s == [] then 0
    else DigitsValue(s[..|s| - 1]) * 10 + (s[|s| - 1] as int - '0' as int)
  }

  /** Python's int(s) on strings that are a non-empty run of decimal digits; None stands for ValueError. */
  function ParseDecimal(s: string): (r: Option<nat>)
    ensures r.Some? <==> |s| > 0 && AllDigits(s)
  {
    if |s| > 0 && AllDigits(s) then Some(DigitsValue(s)) else None
  }

  /** Formatting a number in decimal and parsing it back gives the number. */
  lemma {:induction false} DecimalRoundTrip(n: nat)
    ensures ParseDecimal(NatToDecimal(n)) == Some(n)
  {
    if n >= 10 {
      DecimalRoundTrip(n / 10);
      var s := NatToDecimal(n);
      assert s[..|s| - 1] == NatToDecimal(n / 10);
      assert s[|s| - 1] == DigitChar(n % 10);
      assert DigitsValue(s) == (n / 10) * 10 + n % 10;
    } else {
      assert NatToDecimal(n)[..0] == [];
    }
  }

  // ---- Python's s.strip('"\'') ----

  predicate IsQuote(c: char)
  {
    c == '"' || c == '\''
  }

  /** How many quote characters `s` starts with. */
  function LeadingQuotes(s: string): (n: nat)
    ensures n <= |s|
    ensures forall i :: 0 <= i < n ==> IsQuote(s[i])
    ensures n == |s| || !IsQuote(s[n])
  {
    if s != [] && IsQuote(s[0]) then 1 + LeadingQuotes(s[1..]) else 0
  }

  /** How many quote characters `s` ends with. */
  function TrailingQuotes(s: string): (n: nat)
    ensures n <= |s|
    ensures forall i :: |s| - n <= i < |s| ==> IsQuote(s[i])
    ensures n == |s| || !IsQuote(s[|s| - 1 - n])
  {
    if s != [] && IsQuote(s[|s| - 1]) then 1 + TrailingQuotes(s[..|s| - 1]) else 0
  }

  /**
   * Python's `s.strip('"\'')`: drops the quote characters at both ends, so the
   * result is an infix of `s` that neither starts nor ends with a quote.
   */
  function StripQuotes(s: string): (r: string)
    ensures r == [] || (!IsQuote(r[0]) && !IsQuote(r[|r| - 1]))
    ensures var a := LeadingQuotes(s);
      && a + |r| <= |s|
      && r == s[a..a + |r|]
      && (forall i :: 0 <= i < a ==> IsQuote(s[i]))
      && (forall i :: a + |r| <= i < |s| ==> IsQuote(s[i]))
  {
    var a := LeadingQuotes(s);
    var b := |s| - TrailingQuotes(s[a..]);
    assert forall i :: b <= i < |s| ==> IsQuote(s[i]) by {
      forall i | b <= i < |s| ensures IsQuote(s[i]) {
        assert s[i] == s[a..][i - a];
      }
    }
    assert b > a ==> !IsQuote(s[b - 1]) by {
      if b > a { assert s[b - 1] == s[a..][b - 1 - a]; }
    }
    s[a..b]
  }
}
