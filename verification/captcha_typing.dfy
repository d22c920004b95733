/**
 * The per-keystroke filter `clean_captcha_character` and the keystrokes that
 * `fill_captcha_character_by_character` sends to the captcha field.
 */
module CaptchaTyping {
  import opened Chars

  /** Drops Unicode category Cc characters. */
  function RemoveControls(s: string): (r: string)
    ensures forall i :: 0 <= i < |r| ==> !IsControl(r[i])
  {
    if |s| == 0 then []
    else (if IsControl(s[0]) then [] else [s[0]]) + RemoveControls(s[1..])
  }

  /** `clean_captcha_character`: strip, drop controls, upper-case, keep only if alphanumeric. */
  function CleanCharacter(s: string): string {
    if s == [] then []
    else
      var t := Upper(RemoveControls(Trim(s)));
      if IsAlnumString(t) then t else []
  }

  /** One character cleans to itself upper-cased when it is a letter or digit, and to "" otherwise. */
  lemma CleanCharacterOfChar(c: char)
    ensures CleanCharacter([c]) == if IsAlnum(c) then [ToUpper(c)] else []
  {
    var t := Upper(RemoveControls(Trim([c])));
    assert CleanCharacter([c]) == if IsAlnumString(t) then t else [];
    TrimOfChar(c);
    NotAlnum(c);
    if IsSpace(c) || IsControl(c) {
      if !IsSpace(c) {
        RemoveControlsOfChar(c);
      }
      assert RemoveControls(Trim([c])) == [];
      assert t == [];
    } else {
      RemoveControlsOfChar(c);
      assert t == [ToUpper(c)];
      assert IsAlnumString(t) <==> IsAlnum(c);
    }
  }

  /** Whitespace and control characters are neither letters nor digits. */
  lemma NotAlnum(c: char)
    ensures IsSpace(c) || IsControl(c) ==> !IsAlnum(c)
  {
  }

  /** `strip()` of one character. */
  lemma TrimOfChar(c: char)
    ensures Trim([c]) == if IsSpace(c) then [] else [c]
  {
    if IsSpace(c) {
      assert TrimLeft([c]) == TrimLeft([c][1..]);
    } else {
      TrimFixed([c]);
    }
  }

  lemma RemoveControlsOfChar(c: char)
    ensures RemoveControls([c]) == if IsControl(c) then [] else [c]
  {
    assert [c][1..] == [];
  }

  lemma CleanCharacterExamples()
    ensures CleanCharacter("b") == "B"
    ensures CleanCharacter(" ") == ""
    ensures CleanCharacter("!") == ""
  {
    CleanCharacterOfChar('b');
    CleanCharacterOfChar(' ');
    CleanCharacterOfChar('!');
  }

  /** The keystrokes typed for `text`: one per character that cleans to something non-empty. */
  function Keystrokes(text: string): (keys: seq<string>)
    ensures |keys| <= |text|
    ensures forall k :: 0 <= k < |keys| ==> |keys[k]| == 1 && IsCaptchaChar(keys[k][0])
  {
    if |text| == 0 then []
    else
      CleanCharacterOfChar(text[0]);
      var key := CleanCharacter([text[0]]);
      (if key != [] then [key] else []) + Keystrokes(text[1..])
  }

  /** The field contents after typing `keys` into the emptied field. */
  function Typed(keys: seq<string>): string {
    if |keys| == 0 then [] else keys[0] + Typed(keys[1..])
  }

  /** Reference: the letters and digits of `text`, upper-cased, in order. */
  function UpperAlnum(text: string): string {
    if |text| == 0 then []
    else (if IsAlnum(text[0]) then [ToUpper(text[0])] else []) + UpperAlnum(text[1..])
  }

  /** Typing `text` enters exactly its upper-cased letters and digits, in order. */
  lemma {:induction false} TypedIsUpperAlnum(text: string)
    ensures Typed(Keystrokes(text)) == UpperAlnum(text)
    decreases |text|
  {
    if |text| > 0 {
      TypedIsUpperAlnum(text[1..]);
      CleanCharacterOfChar(text[0]);
      var key := CleanCharacter([text[0]]);
      var rest := Keystrokes(text[1..]);
      if key != [] {
        assert ([key] + rest)[1..] == rest;
      } else {
        assert [] + rest == rest;
      }
    }
  }

  /** A solved captcha (only `[A-Z0-9]`) is typed one key per character, unchanged. */
  lemma {:induction false} TypesCodeExactly(code: string)
    requires CaptchaChars(code)
    ensures |Keystrokes(code)| == |code|
    ensures Typed(Keystrokes(code)) == code
    decreases |code|
  {
    TypedIsUpperAlnum(code);
    if |code| > 0 {
      TypesCodeExactly(code[1..]);
      CleanCharacterOfChar(code[0]);
      assert UpperAlnum(code) == [code[0]] + UpperAlnum(code[1..]);
    }
  }

  /** Typing "aB 3!" enters "AB3". */
  lemma TypingExample()
    ensures Typed(Keystrokes("aB 3!")) == "AB3"
  {
    TypedIsUpperAlnum("aB 3!");
    ExampleUpperAlnum();
  }

  lemma ExampleUpperAlnum()
    ensures UpperAlnum("aB 3!") == "AB3"
  {
  }
}
