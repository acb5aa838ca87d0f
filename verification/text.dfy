/** Character and string helpers shared by the extractors: Python's
    `str.isspace`, `str.strip` and `str.lower`, case-insensitive search for
    fixed literals (`re.I`), and the decimal rendering `f"{prefix}{i}"` of ids.
    Everything is restricted to ASCII; see the README for what that leaves out. */
module Text {
  import opened Results

  // ---------------------------------------------------------------------
  // Whitespace and strip
  // ---------------------------------------------------------------------

  /** The ASCII characters for which Python's `str.isspace` (and so `\s`
      and `str.strip()`) holds: space, \t, \n, \v, \f, \r and \x1c-\x1f. */
  predicate IsSpace(c: char) {
    c == ' ' || c == '\t' || c == '\n' || c == '\U{B}' || c == '\U{C}' || c == '\r'
    || ('\U{1C}' <= c <= '\U{1F}')
  }

  predicate AllSpace(s: string) {
    forall i :: 0 <= i < |s| ==> IsSpace(s[i])
  }

  /** Neither starts nor ends with whitespace. */
  predicate IsTrimmed(s: string) {
    s == [] || (!IsSpace(s[0]) && !IsSpace(s[|s| - 1]))
  }

  /** Where the content of `s` ends: the length left after `s.rstrip()`. */
  function ContentEnd(s: string): (n: nat)
    ensures n <= |s|
    ensures forall i :: n <= i < |s| ==> IsSpace(s[i])
    ensures n == 0 || !IsSpace(s[n - 1])
  {
    if |s| > 0 && IsSpace(s[|s| - 1]) then ContentEnd(s[..|s| - 1]) else |s|
  }

  /** `s.strip()` */
  function Trim(s: string): (r: string)
    ensures IsTrimmed(r)
    ensures r == [] <==> AllSpace(s)
  {
    var a := SkipWhile(s, 0, IsSpace);
    var b := ContentEnd(s);
    if b <= a then
      assert forall i :: 0 <= i < |s| ==> IsSpace(s[i]) by {
        forall i | 0 <= i < |s| ensures IsSpace(s[i]) {
          if i >= a { assert i >= b; }
        }
      }
      []
    else s[a..b]
  }

  /** `r` sits in `s` at `i` with nothing but whitespace around it. */
  ghost predicate IsInnerSlice(r: string, s: string, i: nat) {
    i + |r| <= |s| && r == s[i..i + |r|] && AllSpace(s[..i]) && AllSpace(s[i + |r|..])
  }

  /** What `strip` removes is whitespace at both ends, and only that. */
  lemma {:induction false} TrimIsInnerSlice(s: string)
    ensures exists i: nat :: IsInnerSlice(Trim(s), s, i)
  {
    var a := SkipWhile(s, 0, IsSpace);
    var b := ContentEnd(s);
    if b <= a {
      assert IsInnerSlice(Trim(s), s, 0);
    } else {
      assert IsInnerSlice(Trim(s), s, a);
    }
  }

  /** Stripping is idempotent: a trimmed string is its own strip. */
  lemma {:induction false} TrimOfTrimmed(s: string)
    requires IsTrimmed(s)
    ensures Trim(s) == s
  {
    if s != [] {
      assert SkipWhile(s, 0, IsSpace) == 0;
      assert ContentEnd(s) == |s|;
    }
  }

  // ---------------------------------------------------------------------
  // ASCII case folding
  // ---------------------------------------------------------------------

  function LowerChar(c: char): char {
    if 'A' <= c <= 'Z' then (c as int + 32) as char else c
  }

  /** `s.lower()`, ASCII letters only. */
  function Lower(s: string): (r: string)
    ensures |r| == |s|
    ensures forall i :: 0 <= i < |s| ==> r[i] == LowerChar(s[i])
  {
    seq(|s|, i requires 0 <= i < |s| => LowerChar(s[i]))
  }

  // ---------------------------------------------------------------------
  // Case-insensitive search for fixed literals
  // ---------------------------------------------------------------------

  /** The lower-case literal `pat` matches `s` at position `i` under `re.I`. */
  predicate OccursAt(s: string, pat: string, i: nat) {
    i + |pat| <= |s| && forall k :: 0 <= k < |pat| ==> LowerChar(s[i + k]) == pat[k]
  }

  /** One of the alternatives `pats` matches at `i`. */
  predicate AnyOccursAt(s: string, pats: seq<string>, i: nat) {
    exists n :: 0 <= n < |pats| && OccursAt(s, pats[n], i)
  }

  /** `i` is where `re.search` over the alternation `pats` starts its match. */
  ghost predicate IsFirstOccurrence(s: string, pats: seq<string>, i: nat) {
    AnyOccursAt(s, pats, i) && forall j: nat :: j < i ==> !AnyOccursAt(s, pats, j)
  }

  /** The leftmost position at or after `from` where one of `pats` matches. */
  function FindFrom(s: string, pats: seq<string>, from: nat): (r: Option<nat>)
    ensures r.Some? ==> from <= r.value && AnyOccursAt(s, pats, r.value)
    ensures r.Some? ==> forall j: nat :: from <= j < r.value ==> !AnyOccursAt(s, pats, j)
    ensures r.None? ==> forall j: nat :: from <= j ==> !AnyOccursAt(s, pats, j)
    decreases |s| + 1 - from
  {
    if from > |s| then
      assert forall j: nat, n :: from <= j && 0 <= n < |pats| ==> !OccursAt(s, pats[n], j);
      None
    else if AnyOccursAt(s, pats, from) then Some(from)
    else FindFrom(s, pats, from + 1)
  }

  /** `re.search(pats, s, re.I)`: the start of the first match, if any. */
  function Find(s: string, pats: seq<string>): (r: Option<nat>)
    ensures r.Some? ==> IsFirstOccurrence(s, pats, r.value)
    ensures r.None? <==> forall j: nat :: !AnyOccursAt(s, pats, j)
  {
    FindFrom(s, pats, 0)
  }

  /** Only one position is the first occurrence. */
  lemma {:induction false} FirstOccurrenceUnique(s: string, pats: seq<string>, i: nat)
    requires AnyOccursAt(s, pats, i) && forall j: nat :: j < i ==> !AnyOccursAt(s, pats, j)
    ensures forall j: nat :: IsFirstOccurrence(s, pats, j) ==> j == i
  {
  }

  /** `k` ends the longest run of characters satisfying `p` that starts at `from`. */
  ghost predicate IsRunEnd(s: string, from: nat, k: nat, p: char -> bool) {
    from <= k <= |s|
    && (forall i :: from <= i < k ==> p(s[i]))
    && (k == |s| || !p(s[k]))
  }

  /** A run has only one end. */
  lemma {:induction false} RunEndUnique(s: string, from: nat, k: nat, k': nat, p: char -> bool)
    requires IsRunEnd(s, from, k, p) && IsRunEnd(s, from, k', p)
    ensures k == k'
  {
  }

  /** The end of the greedy run `[p]*` starting at `from`. */
  function SkipWhile(s: string, from: nat, p: char -> bool): (k: nat)
    requires from <= |s|
    ensures IsRunEnd(s, from, k, p)
    decreases |s| - from
  {
    if from < |s| && p(s[from]) then SkipWhile(s, from + 1, p) else from
  }

  // ---------------------------------------------------------------------
  // Decimal rendering of positive counters, and its inverse
  // ---------------------------------------------------------------------

  predicate IsDigit(c: char) {
    '0' <= c <= '9'
  }

  function DigitChar(d: nat): (c: char)
    requires d < 10
    ensures IsDigit(c)
  {
    ('0' as int + d) as char
  }

  /** `str(n)`: decimal digits, no leading zero. */
  function NatToString(n: nat): (r: string)
    ensures |r| >= 1
    ensures forall i :: 0 <= i < |r| ==> IsDigit(r[i])
    ensures |r| > 1 ==> r[0] != '0'
  {
    if n < 10 then [DigitChar(n)] else NatToString(n / 10) + [DigitChar(n % 10)]
  }

  /** `int(s)` for a string of decimal digits. */
  function ParseDecimal(s: string): nat
    requires forall i :: 0 <= i < |s| ==> IsDigit(s[i])
  {
    if |s| == 0 then 0
    else
      assert IsDigit(s[|s| - 1]);
      ParseDecimal(s[..|s| - 1]) * 10 + (s[|s| - 1] as int - '0' as int)
  }

  /** Reading back the decimal rendering of `n` gives `n`. */
  lemma {:induction false} ParseNatToString(n: nat)
    ensures ParseDecimal(NatToString(n)) == n
  {
    var r := NatToString(n);
    if n >= 10 {
      ParseNatToString(n / 10);
      assert r[..|r| - 1] == NatToString(n / 10);
    }
  }

  /** Distinct counters render to distinct strings. */
  lemma {:induction false} NatToStringInjective(m: nat, n: nat)
    ensures NatToString(m) == NatToString(n) ==> m == n
  {
    ParseNatToString(m);
    ParseNatToString(n);
  }
}
