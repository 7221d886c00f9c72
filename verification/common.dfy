/** Shared vocabulary of the explorer model: oracle results standing in for
    the remote API, and the handful of JavaScript string operations the
    components rely on (lower-casing, trimming, `includes`, `replace`,
    decimal rendering and `padStart`). */
module Common {

  /** A value that may be absent: `null`/`undefined` in the original code. */
  datatype Option<+T> = None | Some(value: T)

  /** The outcome of one awaited server call: the resolved value, or a
      rejected promise (the service logs and rethrows). */
  datatype Fetch<+T> = Ok(value: T) | Err

  // ---------------------------------------------------------------------
  // Lower-casing (`toLowerCase`), modelled on ASCII letters

  predicate IsUpper(c: char) {
    'A' <= c <= 'Z'
  }

  function LowerChar(c: char): (d: char)
    ensures !IsUpper(d)
    ensures IsUpper(c) ==> d as int == c as int + 32
    ensures !IsUpper(c) ==> d == c
  {
    if IsUpper(c) then (c as int + 32) as char else c
  }

  function Lower(s: string): (r: string)
    ensures |r| == |s|
    ensures forall i :: 0 <= i < |s| ==> r[i] == LowerChar(s[i])
  {
    seq(|s|, i requires 0 <= i < |s| => LowerChar(s[i]))
  }

  /** Lower-casing twice is lower-casing once. */
  lemma LowerIdempotent(s: string)
    ensures Lower(Lower(s)) == Lower(s)
  {
  }

  // ---------------------------------------------------------------------
  // Whitespace trimming (`trim`)

  /** The whitespace characters `trim` removes that this model knows of:
      the ASCII ones, no-break space and the byte-order mark. */
  predicate IsSpace(c: char) {
    c == ' ' || c == '\t' || c == '\n' || c == '\r' || c == '\U{B}' || c == '\U{C}'
    || c == '\U{A0}' || c == '\U{FEFF}'
  }

  predicate AllSpace(s: string) {
    forall i :: 0 <= i < |s| ==> IsSpace(s[i])
  }

  /** Index of the first non-space character at or after `i`, or `|s|`. */
  function SkipSpaces(s: string, i: nat): (j: nat)
    requires i <= |s|
    ensures i <= j <= |s|
    ensures forall k :: i <= k < j ==> IsSpace(s[k])
    ensures j < |s| ==> !IsSpace(s[j])
    decreases |s| - i
  {
    if i == |s| || !IsSpace(s[i]) then i else SkipSpaces(s, i + 1)
  }

  /** One past the last non-space character at or before `j`, or `lo`. */
  function SkipSpacesBack(s: string, lo: nat, j: nat): (k: nat)
    requires lo <= j <= |s|
    ensures lo <= k <= j
    ensures forall m :: k <= m < j ==> IsSpace(s[m])
    ensures k > lo ==> !IsSpace(s[k - 1])
    decreases j
  {
    if j == lo || !IsSpace(s[j - 1]) then j else SkipSpacesBack(s, lo, j - 1)
  }

  /** `s.trim()`: the slice between the leading and trailing whitespace. */
  function Trim(s: string): (r: string)
    ensures |r| <= |s|
    ensures r == "" <==> AllSpace(s)
    ensures r != "" ==> !IsSpace(r[0]) && !IsSpace(r[|r| - 1])
    ensures exists i, j :: 0 <= i <= j <= |s| && r == s[i..j] && AllSpace(s[..i]) && AllSpace(s[j..])
  {
    var i := SkipSpaces(s, 0);
    var j := SkipSpacesBack(s, i, |s|);
    assert AllSpace(s[..i]) && AllSpace(s[j..]) && s[i..j] == s[i..j];
    assert j == i ==> AllSpace(s);
    s[i..j]
  }

  // ---------------------------------------------------------------------
  // Substring search (`includes`) and single replacement (`replace`)

  predicate OccursAt(s: string, pat: string, i: int) {
    0 <= i && i + |pat| <= |s| && s[i..i + |pat|] == pat
  }

  /** `s.includes(pat)`. */
  predicate Contains(s: string, pat: string) {
    exists i :: 0 <= i <= |s| - |pat| && OccursAt(s, pat, i)
  }

  /** The least position at or after `from` where `pat` occurs in `s`. */
  function FindFrom(s: string, pat: string, from: nat): (r: Option<nat>)
    ensures r.Some? ==> from <= r.value && OccursAt(s, pat, r.value)
    ensures r.Some? ==> forall j :: from <= j < r.value ==> !OccursAt(s, pat, j)
    ensures r.None? ==> forall j :: from <= j ==> !OccursAt(s, pat, j)
    decreases |s| - from
  {
    if from + |pat| > |s| then None
    else if s[from..from + |pat|] == pat then Some(from)
    else FindFrom(s, pat, from + 1)
  }

  /** The position of the first occurrence of `pat` in `s`, if any. */
  function IndexOf(s: string, pat: string): (r: Option<nat>)
    ensures r.Some? <==> Contains(s, pat)
    ensures r.Some? ==> OccursAt(s, pat, r.value)
    ensures r.Some? ==> forall j :: 0 <= j < r.value ==> !OccursAt(s, pat, j)
  {
    FindFrom(s, pat, 0)
  }

  /** The empty string occurs in every string, so `includes("")` holds. */
  lemma ContainsEmpty(s: string)
    ensures Contains(s, "")
  {
    assert OccursAt(s, "", 0);
  }

  /** `s.replace(pat, "")` with a string pattern: only the FIRST occurrence
      is removed. */
  function RemoveFirst(s: string, pat: string): (r: string)
    ensures !Contains(s, pat) ==> r == s
    ensures Contains(s, pat) ==> |r| == |s| - |pat|
  {
    match IndexOf(s, pat)
    case None => s
    case Some(i) => s[..i] + s[i + |pat|..]
  }

  /** What `replace` removes: the occurrence of `pat` at `i`, when no
      occurrence starts before `i`. */
  lemma RemoveFirstAt(s: string, pat: string, i: nat)
    requires OccursAt(s, pat, i)
    requires forall j :: 0 <= j < i ==> !OccursAt(s, pat, j)
    ensures RemoveFirst(s, pat) == s[..i] + s[i + |pat|..]
  {
  }

  // ---------------------------------------------------------------------
  // Decimal digits: rendering (`String(n)`, `padStart(2, '0')`) and reading

  predicate IsDigit(c: char) {
    '0' <= c <= '9'
  }

  predicate AllDigits(s: string) {
    forall i :: 0 <= i < |s| ==> IsDigit(s[i])
  }

  function DigitChar(d: nat): (c: char)
    requires d < 10
    ensures IsDigit(c)
  {
    ('0' as int + d) as char
  }

  function DigitValue(c: char): (d: nat)
    requires IsDigit(c)
    ensures d < 10
    ensures DigitChar(d) == c
  {
    c as int - '0' as int
  }

  /** The number a string of decimal digits denotes (most significant first). */
  function Value(s: string): (n: nat)
    requires AllDigits(s)
    decreases |s|
  {
    if |s| == 0 then 0 else Value(s[..|s| - 1]) * 10 + DigitValue(s[|s| - 1])
  }

  /** `String(n)` for a non-negative integer. */
  function Decimal(n: nat): (r: string)
    ensures |r| >= 1
    ensures AllDigits(r)
    ensures n >= 10 ==> r[0] != '0'
    decreases n
  {
    if n < 10 then [DigitChar(n)] else Decimal(n / 10) + [DigitChar(n % 10)]
  }

  /** Reading back what `Decimal` rendered gives the original number. */
  lemma {:induction false} ValueOfDecimal(n: nat)
    ensures Value(Decimal(n)) == n
    decreases n
  {
    if n >= 10 {
      var r := Decimal(n);
      assert r[..|r| - 1] == Decimal(n / 10);
      ValueOfDecimal(n / 10);
    }
  }

  /** `String(n).padStart(2, '0')`. */
  function Pad2(n: nat): (r: string)
    ensures AllDigits(r)
    ensures n < 100 ==> |r| == 2 && Value(r) == n
  {
    ValueOfDecimal(n);
    if n < 10 then "0" + Decimal(n) else Decimal(n)
  }
}
