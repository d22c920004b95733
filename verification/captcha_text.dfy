/**
 * Normalisation of the free-form text an AI vision model returns for a
 * captcha image (`clean_captcha_response`).
 */
module CaptchaText {
  import opened Wrappers
  import opened Chars

  /** The preambles an AI reply may start with, in the order they are tried. */
  const Preambles: seq<string> := [
    "THE TEXT IS:", "TEXT:", "CAPTCHA:", "ANSWER:", "RESULT:",
    "THE ANSWER IS:", "THE CAPTCHA IS:", "THE CODE IS:",
    "CODE:", "IMAGE CONTAINS:", "I SEE:", "THE IMAGE SHOWS:",
    "THE TEXT IN THE IMAGE IS:", "CAPTCHA TEXT:", "THE CAPTCHA TEXT IS:"
  ]

  /** Quotes and punctuation stripped from both ends of the candidate. */
  const Punctuation: set<char> :=
    {'\'', '"', '.', ',', '!', '?', '-', '_', '(', ')', '[', ']', '{', '}', ':', ';'}

  /** None of the stripped punctuation is a captcha character. */
  lemma PunctuationInvisible()
    ensures forall c :: c in Punctuation ==> !IsCaptchaChar(c)
  {
  }

  // ---------------------------------------------------------------------------
  // Step 2: preamble removal
  // ---------------------------------------------------------------------------

  /** Strips the first preamble of `ps` that `s` starts with, then whitespace. */
  function StripPreamble(s: string, ps: seq<string>): string {
    if |ps| == 0 then s
    else if StartsWith(s, ps[0]) then Trim(s[|ps[0]|..])
    else StripPreamble(s, ps[1..])
  }

  /** Only the earliest matching preamble of the list is removed. */
  lemma {:induction false} StripsFirstMatchingPreamble(s: string, ps: seq<string>, i: nat)
    requires i < |ps| && StartsWith(s, ps[i])
    requires forall j :: 0 <= j < i ==> !StartsWith(s, ps[j])
    ensures StripPreamble(s, ps) == Trim(s[|ps[i]|..])
  {
    if i > 0 {
      assert !StartsWith(s, ps[0]);
      assert forall j :: 0 <= j < i - 1 ==> ps[1..][j] == ps[j + 1];
      StripsFirstMatchingPreamble(s, ps[1..], i - 1);
    }
  }

  /** Text that starts with no preamble is left alone. */
  lemma {:induction false} StripPreambleNoMatch(s: string, ps: seq<string>)
    requires forall j :: 0 <= j < |ps| ==> !StartsWith(s, ps[j])
    ensures StripPreamble(s, ps) == s
  {
    if |ps| > 0 {
      assert !StartsWith(s, ps[0]);
      assert forall j :: 0 <= j < |ps| - 1 ==> ps[1..][j] == ps[j + 1];
      StripPreambleNoMatch(s, ps[1..]);
    }
  }

  /** Every preamble ends in ':'. */
  lemma PreamblesEndInColon()
    ensures forall j :: 0 <= j < |Preambles| ==>
      |Preambles[j]| > 0 && Preambles[j][|Preambles[j]| - 1] == ':'
  {
  }

  /** Text that starts with a word ending in ':' has a ':' where that word ends. */
  lemma ColonPrefix(s: string, p: string)
    requires |p| > 0 && p[|p| - 1] == ':' && StartsWith(s, p)
    ensures s[|p| - 1] == ':'
  {
    assert s[..|p|][|p| - 1] == s[|p| - 1];
  }

  /** Text of `[A-Z0-9]` and '-' starts with no preamble. */
  lemma NoPreambleInDashedCode(s: string)
    requires forall i :: 0 <= i < |s| ==> IsCaptchaChar(s[i]) || s[i] == '-'
    ensures StripPreamble(s, Preambles) == s
  {
    PreamblesEndInColon();
    NoColonNoMatch(s, Preambles);
  }

  /** Text without a ':' starts with no word that ends in ':'. */
  lemma NoColonNoMatch(s: string, ps: seq<string>)
    requires forall j :: 0 <= j < |ps| ==> |ps[j]| > 0 && ps[j][|ps[j]| - 1] == ':'
    requires forall i :: 0 <= i < |s| ==> IsCaptchaChar(s[i]) || s[i] == '-'
    ensures StripPreamble(s, ps) == s
  {
    forall j | 0 <= j < |ps|
      ensures !StartsWith(s, ps[j])
    {
      if StartsWith(s, ps[j]) {
        ColonPrefix(s, ps[j]);
      }
    }
    StripPreambleNoMatch(s, ps);
  }

  /** No string of `[A-Z0-9]` starts with a preamble. */
  lemma NoPreambleInCode(s: string)
    requires CaptchaChars(s)
    ensures StripPreamble(s, Preambles) == s
  {
    NoPreambleInDashedCode(s);
  }

  // ---------------------------------------------------------------------------
  // Step 3 (and step 7): the first match of `[A-Z0-9]{lo,hi}`
  // ---------------------------------------------------------------------------

  /** Length of the run of `[A-Z0-9]` characters at the start of `s`. */
  function RunLength(s: string): (n: nat)
    ensures n <= |s|
    ensures forall i :: 0 <= i < n ==> IsCaptchaChar(s[i])
    ensures n < |s| ==> !IsCaptchaChar(s[n])
  {
    if |s| > 0 && IsCaptchaChar(s[0]) then 1 + RunLength(s[1..]) else 0
  }

  /** A match of `[A-Z0-9]{lo,}` can start at position `i`. */
  predicate RunStartsAt(s: string, i: nat, lo: nat) {
    i <= |s| && RunLength(s[i..]) >= lo
  }

  /** What a greedy `[A-Z0-9]{lo,hi}` consumes when it starts at `i`. */
  function RunAt(s: string, i: nat, hi: nat): (r: string)
    requires i <= |s|
    ensures |r| == if RunLength(s[i..]) < hi then RunLength(s[i..]) else hi
    ensures r == s[i..i + |r|]
    ensures CaptchaChars(r)
  {
    var n := RunLength(s[i..]);
    var m := if n < hi then n else hi;
    assert forall k :: 0 <= k < m ==> s[i..i + m][k] == s[i..][k];
    s[i..i + m]
  }

  /** `re.search` for `[A-Z0-9]{lo,hi}` from position `i` onwards. */
  function FirstRunFrom(s: string, i: nat, lo: nat, hi: nat): (r: Option<string>)
    requires 1 <= lo <= hi && i <= |s|
    ensures r.Some? ==> exists j :: i <= j <= |s| && RunStartsAt(s, j, lo)
                                   && (forall k :: i <= k < j ==> !RunStartsAt(s, k, lo))
                                   && r.value == RunAt(s, j, hi)
    ensures r.None? ==> forall k :: i <= k <= |s| ==> !RunStartsAt(s, k, lo)
    decreases |s| - i
  {
    if RunStartsAt(s, i, lo) then Some(RunAt(s, i, hi))
    else if i == |s| then None
    else FirstRunFrom(s, i + 1, lo, hi)
  }

  /** The first match of `[A-Z0-9]{lo,hi}` in `s`, if any. */
  function FirstRun(s: string, lo: nat, hi: nat): (r: Option<string>)
    requires 1 <= lo <= hi
    ensures r.Some? ==> lo <= |r.value| <= hi && CaptchaChars(r.value)
  {
    FirstRunFrom(s, 0, lo, hi)
  }

  /** On a string made only of `[A-Z0-9]`, the first match is its prefix. */
  lemma FirstRunOfCode(s: string, lo: nat, hi: nat)
    requires 1 <= lo <= hi && lo <= |s| && CaptchaChars(s)
    ensures FirstRun(s, lo, hi) == Some(Prefix(s, hi))
  {
    assert s[0..] == s;
    assert RunStartsAt(s, 0, lo);
  }

  /** A string shorter than `lo` has no match. */
  lemma FirstRunTooShort(s: string, lo: nat, hi: nat)
    requires 1 <= lo <= hi && |s| < lo
    ensures FirstRun(s, lo, hi) == None
  {
  }

  // ---------------------------------------------------------------------------
  // Steps 4 and 6: punctuation stripping and character filtering
  // ---------------------------------------------------------------------------

  /** `s.lstrip(cs)` */
  function StripLeftChars(s: string, cs: set<char>): string {
    if |s| > 0 && s[0] in cs then StripLeftChars(s[1..], cs) else s
  }

  /** `s.rstrip(cs)` */
  function StripRightChars(s: string, cs: set<char>): string {
    if |s| > 0 && s[|s| - 1] in cs then StripRightChars(s[..|s| - 1], cs) else s
  }

  /** `s.strip(cs)` */
  function StripChars(s: string, cs: set<char>): string {
    StripRightChars(StripLeftChars(s, cs), cs)
  }

  /** `re.sub(r'[^A-Z0-9]', '', s)` */
  function KeepCaptchaChars(s: string): (r: string)
    ensures CaptchaChars(r)
    ensures |r| <= |s|
    ensures CaptchaChars(s) ==> r == s
    ensures r == [] <==> forall i :: 0 <= i < |s| ==> !IsCaptchaChar(s[i])
  {
    if |s| == 0 then []
    else (if IsCaptchaChar(s[0]) then [s[0]] else []) + KeepCaptchaChars(s[1..])
  }

  lemma {:induction false} KeepAppend(a: string, b: string)
    ensures KeepCaptchaChars(a + b) == KeepCaptchaChars(a) + KeepCaptchaChars(b)
    decreases |a|
  {
    if |a| > 0 {
      assert (a + b)[1..] == a[1..] + b;
      KeepAppend(a[1..], b);
    } else {
      assert a + b == b;
    }
  }

  /** Stripping characters the filter drops anyway does not change the filter's output. */
  lemma {:induction false} StripCharsInvisible(s: string, cs: set<char>)
    requires forall c :: c in cs ==> !IsCaptchaChar(c)
    ensures KeepCaptchaChars(StripChars(s, cs)) == KeepCaptchaChars(s)
  {
    StripLeftInvisible(s, cs);
    StripRightInvisible(StripLeftChars(s, cs), cs);
  }

  lemma {:induction false} StripLeftInvisible(s: string, cs: set<char>)
    requires forall c :: c in cs ==> !IsCaptchaChar(c)
    ensures KeepCaptchaChars(StripLeftChars(s, cs)) == KeepCaptchaChars(s)
    decreases |s|
  {
    if |s| > 0 && s[0] in cs {
      StripLeftInvisible(s[1..], cs);
    }
  }

  lemma {:induction false} StripRightInvisible(s: string, cs: set<char>)
    requires forall c :: c in cs ==> !IsCaptchaChar(c)
    ensures KeepCaptchaChars(StripRightChars(s, cs)) == KeepCaptchaChars(s)
    decreases |s|
  {
    if |s| > 0 && s[|s| - 1] in cs {
      var init := s[..|s| - 1];
      StripRightInvisible(init, cs);
      assert s == init + [s[|s| - 1]];
      KeepAppend(init, [s[|s| - 1]]);
    }
  }

  /** Stripping characters from the ends of a string that has none of them at its ends. */
  lemma StripCharsOfCode(s: string)
    requires CaptchaChars(s)
    ensures StripChars(s, Punctuation) == s
  {
  }

  // ---------------------------------------------------------------------------
  // The whole pipeline
  // ---------------------------------------------------------------------------

  /** The reply after `strip().upper()` and preamble removal (steps 1-2). */
  function Body(text: string): string {
    StripPreamble(Upper(Trim(text)), Preambles)
  }

  /** The candidate after steps 3-6: the first 3-8 character run if any, filtered to `[A-Z0-9]`. */
  function Survivor(text: string): string {
    var body := Body(text);
    var candidate := match FirstRun(body, 3, 8)
      case Some(run) => run
      case None => body;
    KeepCaptchaChars(StripChars(candidate, Punctuation))
  }

  /** Step 7: length-based validation and truncation. */
  function Validate(kept: string): Option<string> {
    if 3 <= |kept| <= 10 then Some(kept)
    else if |kept| > 10 then
      match FirstRun(kept, 4, 6)
      case Some(code) => Some(code)
      case None => if |kept| >= 3 then Some(Prefix(kept, 6)) else None
    else if |kept| > 0 then Some(kept)
    else None
  }

  /** `clean_captcha_response`: None for an empty reply, otherwise the validated survivor. */
  function CleanResponse(text: string): Option<string> {
    if text == [] then None else Validate(Survivor(text))
  }

  /** The four outcomes of the length validation. */
  lemma CleanValidation(text: string)
    requires text != []
    ensures var kept := Survivor(text);
      && (kept == [] ==> CleanResponse(text) == None)
      && (1 <= |kept| <= 10 ==> CleanResponse(text) == Some(kept))
      && (|kept| > 10 ==> CleanResponse(text) == Some(kept[..6]))
  {
    var kept := Survivor(text);
    if |kept| > 10 {
      FirstRunOfCode(kept, 4, 6);
    }
  }

  /** The cleaner gives None exactly when no `[A-Z0-9]` survives preamble removal. */
  lemma CleanNoneIff(text: string)
    ensures CleanResponse(text) == None <==>
            forall i :: 0 <= i < |Body(text)| ==> !IsCaptchaChar(Body(text)[i])
  {
    if text == [] {
      BodyOfEmpty();
    } else if FirstRun(Body(text), 3, 8).Some? {
      CleanTakesFirstRun(text);
      RunHasCode(Body(text));
    } else {
      CleanWithoutRun(text);
    }
  }

  lemma BodyOfEmpty()
    ensures Body([]) == []
  {
    assert Trim([]) == [];
    assert Upper([]) == [];
    NoPreambleInDashedCode([]);
  }

  lemma RunHasCode(body: string)
    requires FirstRun(body, 3, 8).Some?
    ensures exists i :: 0 <= i < |body| && IsCaptchaChar(body[i])
  {
    var j :| 0 <= j <= |body| && RunStartsAt(body, j, 3);
    assert IsCaptchaChar(body[j..][0]);
  }

  lemma CleanWithoutRun(text: string)
    requires text != [] && FirstRun(Body(text), 3, 8).None?
    ensures CleanResponse(text) == None <==>
            forall i :: 0 <= i < |Body(text)| ==> !IsCaptchaChar(Body(text)[i])
  {
    var body := Body(text);
    PunctuationInvisible();
    StripCharsInvisible(body, Punctuation);
    var kept := Survivor(text);
    assert kept == KeepCaptchaChars(body);
    assert kept == [] <==> forall i :: 0 <= i < |body| ==> !IsCaptchaChar(body[i]);
    CleanValidation(text);
    assert CleanResponse(text) == None <==> kept == [];
  }

  /** Every answer is a non-empty string of `[A-Z0-9]` of length at most 10. */
  lemma CleanShape(text: string)
    ensures CleanResponse(text).Some? ==>
      var r := CleanResponse(text).value; 1 <= |r| <= 10 && CaptchaChars(r)
  {
    if text != [] {
      CleanValidation(text);
    }
  }

  /** When the reply holds a run of at least 3 `[A-Z0-9]`, the answer is its first 3-8 characters. */
  lemma CleanTakesFirstRun(text: string)
    requires text != []
    requires FirstRun(Body(text), 3, 8).Some?
    ensures CleanResponse(text) == FirstRun(Body(text), 3, 8)
  {
    var run := FirstRun(Body(text), 3, 8).value;
    StripCharsOfCode(run);
  }

  /** Steps 1-2 leave a string of `[A-Z0-9]` unchanged. */
  lemma BodyOfCode(s: string)
    requires CaptchaChars(s)
    ensures Body(s) == s
  {
    TrimNoSpaces(s);
    assert Upper(s) == s;
    NoPreambleInCode(s);
  }

  /** A code of at most 8 `[A-Z0-9]` characters is returned unchanged. */
  lemma CleanFixesShortCode(s: string)
    requires 1 <= |s| <= 8 && CaptchaChars(s)
    ensures CleanResponse(s) == Some(s)
  {
    BodyOfCode(s);
    if |s| >= 3 {
      FirstRunOfCode(s, 3, 8);
      CleanTakesFirstRun(s);
    } else {
      TinyCodeSurvives(s);
    }
  }

  /** A code of one or two characters has no run and survives the filter whole. */
  lemma TinyCodeSurvives(s: string)
    requires 1 <= |s| < 3 && CaptchaChars(s) && Body(s) == s
    ensures CleanResponse(s) == Some(s)
  {
    FirstRunTooShort(s, 3, 8);
    StripCharsOfCode(s);
    assert Survivor(s) == s;
  }

  /** Re-cleaning an answer of length at most 8 changes nothing. */
  lemma CleanIdempotentUpTo8(text: string)
    requires CleanResponse(text).Some? && |CleanResponse(text).value| <= 8
    ensures CleanResponse(CleanResponse(text).value) == CleanResponse(text)
  {
    CleanShape(text);
    CleanFixesShortCode(CleanResponse(text).value);
  }

  /** A 10-character code written as dash-separated pairs, "AB-CD-EF-GH-IJ". */
  function Pairs(code: string): (s: string)
    requires |code| == 10
  {
    code[..2] + "-" + (code[2..4] + "-" + (code[4..6] + "-" + (code[6..8] + "-" + code[8..])))
  }

  /**
   * Answers of 10 characters are not fixed points: any 10-character code is
   * the answer for its dash-separated spelling, yet re-cleaning it cuts it to 8.
   */
  lemma CleanNotIdempotentAt10(code: string)
    requires |code| == 10 && CaptchaChars(code)
    ensures CleanResponse(Pairs(code)) == Some(code)
    ensures CleanResponse(code) == Some(code[..8])
  {
    PairsSurvive(code);
    CleanValidation(Pairs(code));
    BodyOfCode(code);
    FirstRunOfCode(code, 3, 8);
    CleanTakesFirstRun(code);
  }

  /** No match of `[A-Z0-9]{3,}` exists when no three consecutive characters are all `[A-Z0-9]`. */
  lemma NoTripleNoRun(s: string, hi: nat)
    requires 3 <= hi
    requires forall k :: 0 <= k < |s| - 2 ==>
      !IsCaptchaChar(s[k]) || !IsCaptchaChar(s[k + 1]) || !IsCaptchaChar(s[k + 2])
    ensures FirstRun(s, 3, hi) == None
  {
    forall k | 0 <= k <= |s|
      ensures !RunStartsAt(s, k, 3)
    {
      var t := s[k..];
      if |t| >= 3 {
        assert t[0] == s[k] && t[1] == s[k + 1] && t[2] == s[k + 2];
      }
    }
  }

  lemma PairsSurvive(code: string)
    requires |code| == 10 && CaptchaChars(code)
    ensures Survivor(Pairs(code)) == code
  {
    var t := Pairs(code);
    PairsBody(code);
    PairsNoRun(code);
    PunctuationInvisible();
    StripCharsInvisible(t, Punctuation);
    PairsKeep(code);
  }

  lemma PairsLayout(code: string)
    requires |code| == 10
    ensures var t := Pairs(code);
      && |t| == 14
      && (forall k :: 0 <= k < 14 && k % 3 == 2 ==> t[k] == '-')
      && (forall k :: 0 <= k < 14 && k % 3 != 2 ==> t[k] == code[k - k / 3])
  {
    var t := Pairs(code);
    assert |t| == 14;
    forall k | 0 <= k < 14
      ensures k % 3 == 2 ==> t[k] == '-'
      ensures k % 3 != 2 ==> t[k] == code[k - k / 3]
    {
      if k < 3 {
      } else if k < 6 {
      } else if k < 9 {
      } else if k < 12 {
      } else {
      }
    }
  }

  lemma PairsBody(code: string)
    requires |code| == 10 && CaptchaChars(code)
    ensures Body(Pairs(code)) == Pairs(code)
  {
    var t := Pairs(code);
    PairsUpperTrim(code);
    PairsLayout(code);
    NoPreambleInDashedCode(t);
  }

  lemma PairsUpperTrim(code: string)
    requires |code| == 10 && CaptchaChars(code)
    ensures Upper(Trim(Pairs(code))) == Pairs(code)
  {
    var t := Pairs(code);
    PairsLayout(code);
    TrimFixed(t);
    assert Upper(t) == t;
  }

  lemma PairsNoRun(code: string)
    requires |code| == 10
    ensures FirstRun(Pairs(code), 3, 8) == None
  {
    PairsLayout(code);
    NoTripleNoRun(Pairs(code), 8);
  }

  lemma PairsKeep(code: string)
    requires |code| == 10 && CaptchaChars(code)
    ensures KeepCaptchaChars(Pairs(code)) == code
  {
    var r3 := code[6..8] + "-" + code[8..];
    var r2 := code[4..6] + "-" + r3;
    var r1 := code[2..4] + "-" + r2;
    assert KeepCaptchaChars(code[8..]) == code[8..];
    KeepCodeDash(code[6..8], code[8..]);
    SliceSplit(code, 6, 8);
    assert KeepCaptchaChars(r3) == code[6..];
    KeepCodeDash(code[4..6], r3);
    SliceSplit(code, 4, 6);
    assert KeepCaptchaChars(r2) == code[4..];
    KeepCodeDash(code[2..4], r2);
    SliceSplit(code, 2, 4);
    assert KeepCaptchaChars(r1) == code[2..];
    KeepCodeDash(code[..2], r1);
    SliceSplit(code, 0, 2);
  }

  /** A suffix splits at any later position. */
  lemma SliceSplit(s: string, i: nat, j: nat)
    requires i <= j <= |s|
    ensures s[i..] == s[i..j] + s[j..]
    ensures i == 0 ==> s[..j] == s[i..j] && s == s[i..]
  {
  }

  lemma KeepCodeDash(x: string, rest: string)
    requires CaptchaChars(x)
    ensures KeepCaptchaChars(x + "-" + rest) == x + KeepCaptchaChars(rest)
  {
    var a := x + "-";
    KeepAppend(x, "-");
    assert KeepCaptchaChars("-") == [];
    assert KeepCaptchaChars(x) == x;
    assert KeepCaptchaChars(a) == x;
    KeepAppend(a, rest);
  }

  /** A chatty reply reduces to the code it quotes. */
  lemma CleanExample()
    ensures CleanResponse("THE CAPTCHA IS: 'xY12'") == Some("XY12")
  {
    ExampleBody();
    ExampleRun();
    CleanTakesFirstRun("THE CAPTCHA IS: 'xY12'");
  }

  lemma ExampleUpper()
    ensures Upper(Trim("THE CAPTCHA IS: 'xY12'")) == "THE CAPTCHA IS: 'XY12'"
  {
    TrimFixed("THE CAPTCHA IS: 'xY12'");
  }

  lemma ExampleBody()
    ensures Body("THE CAPTCHA IS: 'xY12'") == "'XY12'"
  {
    var u := "THE CAPTCHA IS: 'XY12'";
    ExampleUpper();
    ExamplePreamble();
    ExampleTrim();
  }

  lemma ExampleTrim()
    ensures Trim("THE CAPTCHA IS: 'XY12'"[15..]) == "'XY12'"
  {
    ExampleTail();
    ExampleTailTrim();
  }

  lemma ExampleTail()
    ensures "THE CAPTCHA IS: 'XY12'"[15..] == " 'XY12'"
  {
    var p, q := "THE CAPTCHA IS:", " 'XY12'";
    assert "THE CAPTCHA IS: 'XY12'" == p + q;
    assert (p + q)[|p|..] == q;
  }

  lemma ExampleTailTrim()
    ensures Trim(" 'XY12'") == "'XY12'"
  {
    var q := "'XY12'";
    assert " 'XY12'" == [' '] + q;
    LeadingSpaceTrimmed(q);
  }

  /** One leading space goes, and text with no space at either end stays. */
  lemma LeadingSpaceTrimmed(q: string)
    requires q != [] && !IsSpace(q[0]) && !IsSpace(q[|q| - 1])
    ensures Trim([' '] + q) == q
  {
    var s := [' '] + q;
    assert s[1..] == q;
    assert TrimLeft(s) == TrimLeft(q);
    TrimLeftKeeps(q);
    TrimRightKeeps(q);
  }

  lemma TrimLeftKeeps(q: string)
    requires q != [] && !IsSpace(q[0])
    ensures TrimLeft(q) == q
  {
  }

  lemma TrimRightKeeps(q: string)
    requires q != [] && !IsSpace(q[|q| - 1])
    ensures TrimRight(q) == q
  {
  }

  lemma ExamplePreamble()
    ensures StripPreamble("THE CAPTCHA IS: 'XY12'", Preambles) == Trim("THE CAPTCHA IS: 'XY12'"[15..])
  {
    var u := "THE CAPTCHA IS: 'XY12'";
    assert StartsWith(u, Preambles[6]);
    assert u[4] != Preambles[0][4] && u[1] != Preambles[1][1] && u[0] != Preambles[2][0];
    assert u[0] != Preambles[3][0] && u[0] != Preambles[4][0] && u[4] != Preambles[5][4];
    StripsFirstMatchingPreamble(u, Preambles, 6);
  }

  lemma ExampleRun()
    ensures FirstRun("'XY12'", 3, 8) == Some("XY12")
  {
    var s := "'XY12'";
    assert s[0..] == s;
    assert !RunStartsAt(s, 0, 3);
    assert s[1..] == "XY12'";
    assert RunLength("XY12'") == 4;
    assert RunStartsAt(s, 1, 3);
    assert RunAt(s, 1, 8) == "XY12";
    assert FirstRunFrom(s, 1, 3, 8) == Some("XY12");
    assert FirstRunFrom(s, 0, 3, 8) == Some("XY12");
  }
}
