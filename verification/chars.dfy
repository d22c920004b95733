/**
 * ASCII model of the Python string primitives the checker relies on:
 * `str.isspace`, `str.isdigit`, `str.isalnum`, `str.upper`, `str.strip`,
 * slicing, `in`, `int(...)` on digit strings and `str(n)`.
 * Characters outside ASCII are treated as neither letter, digit nor space.
 */
module Chars {
  import opened Wrappers

  /** Python's `str.isspace` restricted to ASCII (also the class `\s`). */
  predicate IsSpace(c: char) {
    c == ' ' || ('\t' <= c <= '\r') || ('\U{1C}' <= c <= '\U{1F}')
  }

  predicate IsDigit(c: char) { '0' <= c <= '9' }

  predicate IsUpper(c: char) { 'A' <= c <= 'Z' }

  predicate IsLower(c: char) { 'a' <= c <= 'z' }

  /** Python's `str.isalnum` on one ASCII character. */
  predicate IsAlnum(c: char) { IsUpper(c) || IsLower(c) || IsDigit(c) }

  /** Python's `str.isalnum` on a whole string (false for the empty string). */
  predicate IsAlnumString(s: string) {
    |s| > 0 && forall i :: 0 <= i < |s| ==> IsAlnum(s[i])
  }

  /** The regular-expression class `[A-Z0-9]`. */
  predicate IsCaptchaChar(c: char) { IsUpper(c) || IsDigit(c) }

  /** Unicode category Cc: C0 controls, DEL and the C1 controls. */
  predicate IsControl(c: char) { c < ' ' || ('\U{7F}' <= c <= '\U{9F}') }

  function ToUpper(c: char): (u: char)
    ensures IsLower(c) ==> IsUpper(u)
    ensures !IsLower(c) ==> u == c
  {
    if IsLower(c) then (c as int - 'a' as int + 'A' as int) as char else c
  }

  /** `s.upper()` */
  function Upper(s: string): (r: string)
    ensures |r| == |s|
    ensures forall i :: 0 <= i < |s| ==> r[i] == ToUpper(s[i])
  {
    seq(|s|, i requires 0 <= i < |s| => ToUpper(s[i]))
  }

  predicate CaptchaChars(s: string) {
    forall i :: 0 <= i < |s| ==> IsCaptchaChar(s[i])
  }

  predicate NoSpaces(s: string) {
    forall i :: 0 <= i < |s| ==> !IsSpace(s[i])
  }

  /** Python's `str.isdigit`: non-empty and every character a digit. */
  predicate IsDigits(s: string) {
    |s| > 0 && forall i :: 0 <= i < |s| ==> IsDigit(s[i])
  }

  /** Drops leading whitespace, as `s.lstrip()`. */
  function TrimLeft(s: string): (r: string)
    ensures |r| <= |s| && r == s[|s| - |r|..]
    ensures r == [] || !IsSpace(r[0])
    ensures forall i :: 0 <= i < |s| - |r| ==> IsSpace(s[i])
  {
    if |s| > 0 && IsSpace(s[0]) then TrimLeft(s[1..]) else s
  }

  /** Drops trailing whitespace, as `s.rstrip()`. */
  function TrimRight(s: string): (r: string)
    ensures |r| <= |s| && r == s[..|r|]
    ensures r == [] || !IsSpace(r[|r| - 1])
    ensures forall i :: |r| <= i < |s| ==> IsSpace(s[i])
  {
    if |s| > 0 && IsSpace(s[|s| - 1]) then TrimRight(s[..|s| - 1]) else s
  }

  /** `s.strip()` */
  function Trim(s: string): string {
    TrimRight(TrimLeft(s))
  }

  /** A string with no leading or trailing whitespace is its own `strip()`. */
  lemma TrimFixed(s: string)
    requires s == [] || (!IsSpace(s[0]) && !IsSpace(s[|s| - 1]))
    ensures Trim(s) == s
  {
  }

  /** `strip()` is idempotent. */
  lemma TrimIdempotent(s: string)
    ensures Trim(Trim(s)) == Trim(s)
  {
    var l := TrimLeft(s);
    var r := TrimRight(l);
    if r != [] {
      assert r[0] == l[0];
    }
    TrimFixed(r);
  }

  lemma TrimNoSpaces(s: string)
    requires NoSpaces(s)
    ensures Trim(s) == s
  {
    TrimFixed(s);
  }

  /** `s[:n]`, which never fails in Python. */
  function Prefix(s: string, n: nat): (r: string)
    ensures |r| == if n < |s| then n else |s|
    ensures r == s[..|r|]
  {
    if n < |s| then s[..n] else s
  }

  predicate StartsWith(s: string, p: string) {
    |p| <= |s| && s[..|p|] == p
  }

  /** The position of the first occurrence of `p` in `s`, as `s.find(p)`. */
  function IndexOf(s: string, p: string): (r: Option<nat>)
    ensures r.Some? ==> r.value + |p| <= |s| && StartsWith(s[r.value..], p)
    ensures r.Some? ==> forall k :: 0 <= k < r.value ==> !StartsWith(s[k..], p)
    ensures r.None? ==> forall k :: 0 <= k <= |s| ==> !StartsWith(s[k..], p)
    decreases |s|
  {
    if StartsWith(s, p) then Some(0)
    else if |s| == 0 then None
    else
      match IndexOf(s[1..], p)
      case None => assert forall k :: 1 <= k <= |s| ==> s[k..] == s[1..][k - 1..]; None
      case Some(k) => assert forall j :: 1 <= j <= |s| ==> s[j..] == s[1..][j - 1..]; Some(k + 1)
  }

  /** `p in s` */
  predicate Contains(s: string, p: string) {
    IndexOf(s, p).Some?
  }

  /** `s.split('\n')[0]` */
  function FirstLine(s: string): (r: string)
    ensures |r| <= |s| && r == s[..|r|]
    ensures '\n' !in r
    ensures |r| < |s| ==> s[|r|] == '\n'
  {
    if |s| == 0 || s[0] == '\n' then []
    else
      var rest := FirstLine(s[1..]);
      assert s[..|rest| + 1] == [s[0]] + s[1..][..|rest|];
      [s[0]] + rest
  }

  function DigitValue(c: char): nat
    requires IsDigit(c)
  {
    c as int - '0' as int
  }

  /** `int(s)` for a string of ASCII digits (leading zeros allowed). */
  function DigitsValue(s: string): nat
    requires forall i :: 0 <= i < |s| ==> IsDigit(s[i])
  {
    if |s| == 0 then 0 else DigitsValue(s[..|s| - 1]) * 10 + DigitValue(s[|s| - 1])
  }

  function DigitChar(d: nat): (c: char)
    requires d < 10
    ensures IsDigit(c) && DigitValue(c) == d
  {
    ('0' as int + d) as char
  }

  /** `str(n)` for a natural number. */
  function Decimal(n: nat): (r: string)
    ensures IsDigits(r)
    decreases n
  {
    if n < 10 then [DigitChar(n)] else Decimal(n / 10) + [DigitChar(n % 10)]
  }

  /** Reading back the decimal rendering of `n` gives `n`. */
  lemma {:induction false} DecimalRoundTrip(n: nat)
    ensures DigitsValue(Decimal(n)) == n
    decreases n
  {
    var r := Decimal(n);
    if n >= 10 {
      DecimalRoundTrip(n / 10);
      assert r[..|r| - 1] == Decimal(n / 10);
    }
  }
}
