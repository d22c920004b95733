/**
 * `extract_all_subject_names`: the subject names read from the page's
 * `.col-lg-12` containers before any icon is clicked. A primary pass takes the
 * name after a course code such as `22CSEC1001-`; when it yields fewer than
 * three names, a fallback pass takes the text after the first '-' of every
 * container whose first 15 characters hold a digit, without duplicates.
 * A container is given by its text content; a missing text content is "".
 */
module SubjectNames {
  import opened Wrappers
  import opened Chars

  // ---------------------------------------------------------------------------
  // Whitespace normalisation: ' '.join(s.split())
  // ---------------------------------------------------------------------------

  /** The length of the run of non-whitespace characters at the start of `s`. */
  function WordLength(s: string): (n: nat)
    ensures n <= |s|
    ensures NoSpaces(s[..n])
    ensures n < |s| ==> IsSpace(s[n])
  {
    if s == [] || IsSpace(s[0]) then 0
    else
      var m := WordLength(s[1..]);
      assert s[..m + 1] == [s[0]] + s[1..][..m];
      m + 1
  }

  /** `s.split()`: the maximal runs of non-whitespace characters, in order. */
  function Words(s: string): seq<string>
    decreases |s|
  {
    var t := TrimLeft(s);
    if t == [] then []
    else
      var n := WordLength(t);
      [t[..n]] + Words(t[n..])
  }

  /** Every word is a non-empty run without whitespace. */
  lemma {:induction false} WordsShape(s: string)
    ensures forall k :: 0 <= k < |Words(s)| ==> Words(s)[k] != [] && NoSpaces(Words(s)[k])
    decreases |s|
  {
    var t := TrimLeft(s);
    if t != [] {
      var n := WordLength(t);
      WordsShape(t[n..]);
      var ws := Words(t[n..]);
      assert Words(s) == [t[..n]] + ws;
      forall k | 0 <= k < |Words(s)|
        ensures Words(s)[k] != [] && NoSpaces(Words(s)[k])
      {
        if k > 0 {
          assert Words(s)[k] == ws[k - 1];
        }
      }
    }
  }

  /** `' '.join(ws)` */
  function JoinSpaced(ws: seq<string>): string {
    if |ws| == 0 then []
    else if |ws| == 1 then ws[0]
    else ws[0] + " " + JoinSpaced(ws[1..])
  }

  /**
   * The shape normalised names have: no whitespace at either end, ' ' as the
   * only whitespace character, and never two whitespace characters in a row.
   */
  ghost predicate WellSpaced(s: string) {
    && (s == [] || (!IsSpace(s[0]) && !IsSpace(s[|s| - 1])))
    && (forall i :: 0 <= i < |s| && IsSpace(s[i]) ==> s[i] == ' ')
    && (forall i, j {:trigger s[i], s[j]} :: 0 <= i < j < |s| && j == i + 1 ==> !IsSpace(s[i]) || !IsSpace(s[j]))
  }

  /** Joining non-empty words with single spaces gives a well-spaced string. */
  lemma {:induction false} JoinWellSpaced(ws: seq<string>)
    requires forall k :: 0 <= k < |ws| ==> ws[k] != [] && NoSpaces(ws[k])
    ensures WellSpaced(JoinSpaced(ws))
    ensures JoinSpaced(ws) == [] <==> ws == []
  {
    if |ws| >= 2 {
      var rest := JoinSpaced(ws[1..]);
      JoinWellSpaced(ws[1..]);
      var w := ws[0];
      var s := w + " " + rest;
      assert s == JoinSpaced(ws);
      assert !IsSpace(s[0]) by { assert s[0] == w[0]; }
      assert s[|s| - 1] == rest[|rest| - 1];
      assert forall i :: 0 <= i < |w| ==> s[i] == w[i];
      assert forall i :: |w| < i < |s| ==> s[i] == rest[i - |w| - 1];
      assert s[|w|] == ' ' && s[|w| + 1] == rest[0];
    }
  }

  /** Splitting a string that starts with a word: that word, then the words of the rest. */
  lemma WordsStep(s: string)
    requires s != [] && !IsSpace(s[0])
    ensures Words(s) == [s[..WordLength(s)]] + Words(s[WordLength(s)..])
  {
    assert TrimLeft(s) == s;
  }

  /** A single leading space does not change the words. */
  lemma WordsSkipSpace(r: string)
    requires |r| >= 2 && IsSpace(r[0]) && !IsSpace(r[1])
    ensures Words(r) == Words(r[1..])
  {
    assert TrimLeft(r[1..]) == r[1..];
    assert TrimLeft(r) == r[1..];
  }

  /** Cutting a well-spaced string at a space leaves a well-spaced remainder. */
  lemma SplitAtSpace(s: string, n: nat)
    requires WellSpaced(s) && n < |s| && IsSpace(s[n])
    ensures s[n] == ' ' && n + 1 < |s| && !IsSpace(s[n + 1])
    ensures WellSpaced(s[n + 1..])
    ensures s == s[..n] + " " + s[n + 1..]
  {
    var u := s[n + 1..];
    assert forall i :: 0 <= i < |u| ==> u[i] == s[n + 1 + i];
  }

  /** A well-spaced string splits into words that join back to it. */
  lemma {:induction false} CollapseFixes(s: string)
    requires WellSpaced(s)
    ensures JoinSpaced(Words(s)) == s
    decreases |s|
  {
    if s != [] {
      var n := WordLength(s);
      if n == |s| {
        CollapseOneWord(s);
      } else {
        SplitAtSpace(s, n);
        CollapseFixes(s[n + 1..]);
        CollapseStep(s, n);
      }
    }
  }

  /** A string that is a single word is its own collapse. */
  lemma CollapseOneWord(s: string)
    requires s != [] && !IsSpace(s[0]) && WordLength(s) == |s|
    ensures JoinSpaced(Words(s)) == s
  {
    WordsOfWord(s);
  }

  /** A string that is a single word splits into just that word. */
  lemma WordsOfWord(s: string)
    requires s != [] && !IsSpace(s[0]) && WordLength(s) == |s|
    ensures Words(s) == [s]
  {
    assert TrimLeft(s) == s;
    assert s[..|s|] == s;
    WordsOfEmpty(s[|s|..]);
  }

  /** The empty string has no words. */
  lemma WordsOfEmpty(s: string)
    requires s == []
    ensures Words(s) == []
  {
    assert TrimLeft(s) == [];
  }

  /** The first word, one space, and the collapse of the rest make up the whole. */
  lemma CollapseStep(s: string, n: nat)
    requires s != [] && !IsSpace(s[0]) && n == WordLength(s) < |s|
    requires s[n] == ' ' && n + 1 < |s| && !IsSpace(s[n + 1])
    requires s == s[..n] + " " + s[n + 1..]
    requires JoinSpaced(Words(s[n + 1..])) == s[n + 1..]
    ensures JoinSpaced(Words(s)) == s
  {
    var u := s[n + 1..];
    WordsStep(s);
    WordsSkipSpace(s[n..]);
    assert s[n..][1..] == u;
    assert Words(s) == [s[..n]] + Words(u);
    assert TrimLeft(u) == u;
    assert |Words(u)| >= 1;
    assert JoinSpaced(Words(s)) == s[..n] + " " + JoinSpaced(Words(u));
  }

  /** A string without a newline is its own first line. */
  lemma FirstLineOfLine(s: string)
    requires forall i :: 0 <= i < |s| ==> s[i] != '\n'
    ensures FirstLine(s) == s
  {
  }

  /**
   * The name clean-up of both passes: strip, collapse the whitespace, keep the
   * first line and strip again.
   */
  function Tidy(raw: string): string {
    Trim(FirstLine(JoinSpaced(Words(Trim(raw)))))
  }

  /** The last two steps of the clean-up change nothing: it is a whitespace collapse. */
  lemma TidyIsCollapse(raw: string)
    ensures Tidy(raw) == JoinSpaced(Words(Trim(raw)))
    ensures WellSpaced(Tidy(raw))
  {
    WordsShape(Trim(raw));
    JoinWellSpaced(Words(Trim(raw)));
    WellSpacedIsTidy(JoinSpaced(Words(Trim(raw))));
  }

  /** A well-spaced string is one line with nothing to strip. */
  lemma WellSpacedIsTidy(c: string)
    requires WellSpaced(c)
    ensures Trim(FirstLine(c)) == c
  {
    assert forall i :: 0 <= i < |c| ==> c[i] != '\n' by {
      forall i | 0 <= i < |c|
        ensures c[i] != '\n'
      {
        if c[i] == '\n' {
          assert IsSpace(c[i]);
        }
      }
    }
    FirstLineOfLine(c);
    TrimFixed(c);
  }

  /** A well-spaced name goes through the clean-up unchanged; in particular the clean-up is idempotent. */
  lemma TidyFixes(s: string)
    requires WellSpaced(s)
    ensures Tidy(s) == s
  {
    TrimFixed(s);
    CollapseFixes(s);
    TidyIsCollapse(s);
  }

  lemma TidyIdempotent(raw: string)
    ensures Tidy(Tidy(raw)) == Tidy(raw)
  {
    TidyIsCollapse(raw);
    TidyFixes(Tidy(raw));
  }

  // ---------------------------------------------------------------------------
  // The two ways a pass gathers names from the containers
  // ---------------------------------------------------------------------------

  /** The names `take` finds in `xs`, in order, duplicates kept. */
  function Collect(take: string -> Option<string>, xs: seq<string>): seq<string> {
    if |xs| == 0 then []
    else (match take(xs[0]) case None => [] case Some(name) => [name]) + Collect(take, xs[1..])
  }

  /** One container's contribution: the name `take` finds in `x`, appended unless already gathered. */
  function Gather(take: string -> Option<string>, acc: seq<string>, x: string): seq<string> {
    match take(x)
    case None => acc
    case Some(name) => if name in acc then acc else acc + [name]
  }

  /** The names `take` finds in `xs`, appended to `acc` unless already present. */
  function CollectNew(take: string -> Option<string>, xs: seq<string>, acc: seq<string>): seq<string> {
    if |xs| == 0 then acc else CollectNew(take, xs[1..], Gather(take, acc, xs[0]))
  }

  /**
   * The pass visits the containers in page order: gathering over one more
   * container gathers over the earlier ones first, then appends the new
   * container's name exactly when it is neither seen nor gathered already.
   */
  lemma {:induction false} CollectNewSnoc(take: string -> Option<string>, xs: seq<string>, x: string, acc: seq<string>)
    ensures CollectNew(take, xs + [x], acc) == Gather(take, CollectNew(take, xs, acc), x)
    decreases |xs|
  {
    if |xs| == 0 {
      assert xs + [x] == [x];
      assert [x][1..] == [];
    } else {
      assert (xs + [x])[0] == xs[0];
      assert (xs + [x])[1..] == xs[1..] + [x];
      CollectNewSnoc(take, xs[1..], x, Gather(take, acc, xs[0]));
    }
  }

  /** Gathering only ever appends: what was gathered before stays at the front, in order. */
  lemma {:induction false} CollectNewExtends(take: string -> Option<string>, xs: seq<string>, acc: seq<string>)
    ensures |acc| <= |CollectNew(take, xs, acc)| && CollectNew(take, xs, acc)[..|acc|] == acc
    decreases |xs|
  {
    if |xs| > 0 {
      var next := Gather(take, acc, xs[0]);
      assert |acc| <= |next| && next[..|acc|] == acc;
      CollectNewExtends(take, xs[1..], next);
      var r := CollectNew(take, xs, acc);
      assert r[..|next|][..|acc|] == r[..|acc|];
    }
  }

  /** Gathering is per container: it distributes over concatenation. */
  lemma {:induction false} CollectAppend(take: string -> Option<string>, a: seq<string>, b: seq<string>)
    ensures Collect(take, a + b) == Collect(take, a) + Collect(take, b)
  {
    if |a| > 0 {
      assert (a + b)[1..] == a[1..] + b;
      CollectAppend(take, a[1..], b);
    } else {
      assert a + b == b;
    }
  }

  /** Every gathered name is what `take` found in some container. */
  lemma {:induction false} CollectFrom(take: string -> Option<string>, xs: seq<string>)
    ensures |Collect(take, xs)| <= |xs|
    ensures forall k :: 0 <= k < |Collect(take, xs)| ==>
      exists i :: 0 <= i < |xs| && take(xs[i]) == Some(Collect(take, xs)[k])
  {
    if |xs| > 0 {
      CollectFrom(take, xs[1..]);
      var rest := Collect(take, xs[1..]);
      var r := Collect(take, xs);
      var skip := if take(xs[0]).Some? then 1 else 0;
      assert |r| == skip + |rest|;
      forall k | 0 <= k < |r|
        ensures exists i :: 0 <= i < |xs| && take(xs[i]) == Some(r[k])
      {
        if k < skip {
          assert take(xs[0]) == Some(r[0]);
        } else {
          assert r[k] == rest[k - skip];
          var i :| 0 <= i < |xs[1..]| && take(xs[1..][i]) == Some(rest[k - skip]);
          assert xs[1..][i] == xs[i + 1];
        }
      }
    }
  }

  predicate NoDuplicates(s: seq<string>) {
    forall i, j :: 0 <= i < j < |s| ==> s[i] != s[j]
  }

  /**
   * Gathering without repeats never repeats a name, and finds exactly the names
   * of the accumulator and the names `take` finds in the containers.
   */
  lemma {:induction false} CollectNewSet(take: string -> Option<string>, xs: seq<string>, acc: seq<string>)
    requires NoDuplicates(acc)
    ensures NoDuplicates(CollectNew(take, xs, acc))
    ensures forall name :: name in CollectNew(take, xs, acc) <==>
      name in acc || exists i :: 0 <= i < |xs| && take(xs[i]) == Some(name)
  {
    if |xs| > 0 {
      var next := Gather(take, acc, xs[0]);
      assert NoDuplicates(next);
      assert forall name :: name in next <==> name in acc || take(xs[0]) == Some(name);
      CollectNewSet(take, xs[1..], next);
      forall name
        ensures name in CollectNew(take, xs, acc) <==>
          name in acc || exists i :: 0 <= i < |xs| && take(xs[i]) == Some(name)
      {
        if exists i :: 0 <= i < |xs| && take(xs[i]) == Some(name) {
          var i :| 0 <= i < |xs| && take(xs[i]) == Some(name);
          if i > 0 {
            assert xs[1..][i - 1] == xs[i];
          }
        }
        if exists i :: 0 <= i < |xs[1..]| && take(xs[1..][i]) == Some(name) {
          var i :| 0 <= i < |xs[1..]| && take(xs[1..][i]) == Some(name);
          assert xs[1..][i] == xs[i + 1];
        }
      }
    }
  }

  // ---------------------------------------------------------------------------
  // The primary pattern \d{2}[A-Z]{4}\d{4}-([A-Z\s&]+)
  // ---------------------------------------------------------------------------

  /** The class `[A-Z\s&]` of the name group. */
  predicate IsNameChar(c: char) { IsUpper(c) || IsSpace(c) || c == '&' }

  /** The course code `\d{2}[A-Z]{4}\d{4}` starts at position `p`. */
  predicate CourseCodeAt(text: string, p: nat) {
    && p + 10 <= |text|
    && (forall i :: p <= i < p + 2 ==> IsDigit(text[i]))
    && (forall i :: p + 2 <= i < p + 6 ==> IsUpper(text[i]))
    && (forall i :: p + 6 <= i < p + 10 ==> IsDigit(text[i]))
  }

  /** The whole pattern matches at `p`: a course code, '-', and at least one name character. */
  predicate PatternAt(text: string, p: nat) {
    CourseCodeAt(text, p) && p + 11 < |text| && text[p + 10] == '-' && IsNameChar(text[p + 11])
  }

  /** The length of the run of name characters from position `i` (the greedy group). */
  function NameRunLength(text: string, i: nat): (n: nat)
    requires i <= |text|
    ensures i + n <= |text|
    ensures forall j :: i <= j < i + n ==> IsNameChar(text[j])
    ensures i + n < |text| ==> !IsNameChar(text[i + n])
    decreases |text| - i
  {
    if i == |text| || !IsNameChar(text[i]) then 0 else 1 + NameRunLength(text, i + 1)
  }

  /** `re.search` from position `p`: the first position where the pattern matches. */
  function SearchFrom(text: string, p: nat): (q: Option<nat>)
    requires p <= |text|
    ensures q.Some? ==> p <= q.value < |text| && PatternAt(text, q.value)
    ensures q.Some? ==> forall k :: p <= k < q.value ==> !PatternAt(text, k)
    ensures q.None? ==> forall k :: p <= k <= |text| ==> !PatternAt(text, k)
    decreases |text| - p
  {
    if p == |text| then None
    else if PatternAt(text, p) then Some(p)
    else SearchFrom(text, p + 1)
  }

  /** `match.group(1)` of the first match, if any. */
  function NameGroup(text: string): (g: Option<string>)
    ensures g.Some? ==> g.value != [] && AllNameChars(g.value)
  {
    match SearchFrom(text, 0)
    case None => None
    case Some(q) =>
      var n := NameRunLength(text, q + 11);
      Some(text[q + 11 .. q + 11 + n])
  }

  /** The length window both passes apply: more than 3 and fewer than 50 characters. */
  predicate NameLengthOk(name: string) { 3 < |name| < 50 }

  /** A cleaned-up name, kept only when its length is within the window. */
  function CheckedName(name: string): Option<string> {
    if NameLengthOk(name) then Some(name) else None
  }

  /** The name group the primary pass finds in one container: long enough, and matching. */
  function PrimaryGroup(content: string): Option<string> {
    var text := Trim(content);
    if |text| <= 10 then None else NameGroup(text)
  }

  /** The name the primary pass takes from one container, if any. */
  function PrimaryName(content: string): Option<string> {
    match PrimaryGroup(content)
    case None => None
    case Some(group) => CheckedName(Tidy(group))
  }

  /** The primary pass over all containers, in page order, duplicates kept. */
  function PrimaryPass(contents: seq<string>): seq<string> {
    Collect(PrimaryName, contents)
  }

  // ---------------------------------------------------------------------------
  // The fallback pass
  // ---------------------------------------------------------------------------

  /** The first position at or after `i` holding `c`, as `s.find(c, i)`. */
  function FindFrom(s: string, c: char, i: nat): (r: Option<nat>)
    requires i <= |s|
    ensures r.Some? ==> i <= r.value < |s| && s[r.value] == c
    ensures r.Some? ==> forall k :: i <= k < r.value ==> s[k] != c
    ensures r.None? ==> forall k :: i <= k < |s| ==> s[k] != c
    decreases |s| - i
  {
    if i == |s| then None else if s[i] == c then Some(i) else FindFrom(s, c, i + 1)
  }

  predicate HasDigit(s: string) { exists i :: 0 <= i < |s| && IsDigit(s[i]) }

  /**
   * What the fallback pass reads in one container: the stripped text after its
   * first '-', when the raw text has a '-' and the stripped text a digit among
   * its first 15 characters.
   */
  function AfterDash(content: string): Option<string> {
    if '-' !in content then None
    else
      var text := Trim(content);
      if !HasDigit(Prefix(text, 15)) then None
      else
        match FindFrom(text, '-', 0)
        case None => None
        case Some(dash) => Some(text[dash + 1..])
  }

  /** The name the fallback pass takes from one container, if any. */
  function FallbackName(content: string): Option<string> {
    match AfterDash(content)
    case None => None
    case Some(rest) => CheckedName(Tidy(rest))
  }

  /** The fallback pass over all containers, in page order, a name already found being skipped. */
  function FallbackPass(contents: seq<string>): seq<string> {
    CollectNew(FallbackName, contents, [])
  }

  /** Fewer than this many primary names make the extraction fall back. */
  const MinPrimaryNames: nat := 3

  /** `extract_all_subject_names` over the containers' text contents. */
  function ExtractAllSubjectNames(contents: seq<string>): seq<string> {
    var primary := PrimaryPass(contents);
    if |primary| < MinPrimaryNames then FallbackPass(contents) else primary
  }

  // ---------------------------------------------------------------------------
  // Properties
  // ---------------------------------------------------------------------------

  /** The alphabet of a primary name: capital letters, single spaces and '&'. */
  predicate PrimaryAlphabet(s: string) {
    forall i :: 0 <= i < |s| ==> IsUpper(s[i]) || s[i] == ' ' || s[i] == '&'
  }

  /** What a name of either pass looks like. */
  ghost predicate GoodName(name: string) { NameLengthOk(name) && WellSpaced(name) }

  predicate AllNameChars(s: string) {
    forall i :: 0 <= i < |s| ==> IsNameChar(s[i])
  }

  /** Stripping keeps a string of name characters one. */
  lemma TrimNameChars(s: string)
    requires AllNameChars(s)
    ensures AllNameChars(TrimLeft(s)) && AllNameChars(Trim(s))
  {
    var l := TrimLeft(s);
    NameCharsSuffix(s, |s| - |l|);
    NameCharsPrefix(l, |TrimRight(l)|);
  }

  lemma NameCharsSuffix(s: string, i: nat)
    requires AllNameChars(s) && i <= |s|
    ensures AllNameChars(s[i..])
  {
    assert forall k :: 0 <= k < |s| - i ==> s[i..][k] == s[i + k];
  }

  lemma NameCharsPrefix(s: string, n: nat)
    requires AllNameChars(s) && n <= |s|
    ensures AllNameChars(s[..n])
  {
    assert forall k :: 0 <= k < n ==> s[..n][k] == s[k];
  }

  /** Stripping leading whitespace before splitting changes nothing. */
  lemma WordsTrimLeft(s: string)
    ensures Words(s) == Words(TrimLeft(s))
  {
    var t := TrimLeft(s);
    assert TrimLeft(t) == t;
  }

  /** A word of name characters holds only capitals and '&'. */
  lemma WordAlphabet(t: string, n: nat)
    requires AllNameChars(t) && n <= |t| && NoSpaces(t[..n])
    ensures PrimaryAlphabet(t[..n]) && AllNameChars(t[n..])
  {
    var w := t[..n];
    assert forall i :: 0 <= i < |w| ==> w[i] == t[i];
    var r := t[n..];
    assert forall i :: 0 <= i < |r| ==> r[i] == t[n + i];
  }

  /** The words of a string of name characters are made of capitals and '&'. */
  lemma {:induction false} WordsOfNameChars(s: string)
    requires AllNameChars(s)
    ensures forall k :: 0 <= k < |Words(s)| ==> PrimaryAlphabet(Words(s)[k])
    decreases |s|
  {
    var t := TrimLeft(s);
    WordsTrimLeft(s);
    if t != [] {
      TrimNameChars(s);
      var n := WordLength(t);
      WordsStep(t);
      WordAlphabet(t, n);
      WordsOfNameChars(t[n..]);
      PrimaryCons(t[..n], Words(t[n..]));
    }
  }

  /** Prepending a word of the primary alphabet keeps a list of such words. */
  lemma PrimaryCons(w: string, ws: seq<string>)
    requires PrimaryAlphabet(w)
    requires forall k :: 0 <= k < |ws| ==> PrimaryAlphabet(ws[k])
    ensures forall k :: 0 <= k < |[w] + ws| ==> PrimaryAlphabet(([w] + ws)[k])
  {
    forall k | 0 <= k < |[w] + ws|
      ensures PrimaryAlphabet(([w] + ws)[k])
    {
      if k > 0 {
        assert ([w] + ws)[k] == ws[k - 1];
      }
    }
  }

  /** Joining words of capitals and '&' with spaces keeps to the primary alphabet. */
  lemma {:induction false} JoinAlphabet(ws: seq<string>)
    requires forall k :: 0 <= k < |ws| ==> PrimaryAlphabet(ws[k])
    ensures PrimaryAlphabet(JoinSpaced(ws))
  {
    if |ws| >= 2 {
      JoinAlphabet(ws[1..]);
      var w := ws[0];
      var rest := JoinSpaced(ws[1..]);
      var s := w + " " + rest;
      assert forall i :: 0 <= i < |w| ==> s[i] == w[i];
      assert forall i :: |w| < i < |s| ==> s[i] == rest[i - |w| - 1];
      assert s[|w|] == ' ';
    }
  }

  /** The clean-up of a name group gives a well-spaced name in the primary alphabet. */
  lemma TidyGroup(group: string)
    requires AllNameChars(group)
    ensures WellSpaced(Tidy(group)) && PrimaryAlphabet(Tidy(group))
  {
    TidyIsCollapse(group);
    CollapseAlphabet(group);
  }

  lemma CollapseAlphabet(group: string)
    requires AllNameChars(group)
    ensures PrimaryAlphabet(JoinSpaced(Words(Trim(group))))
  {
    TrimNameChars(group);
    WordsOfNameChars(Trim(group));
    JoinAlphabet(Words(Trim(group)));
  }

  /** Whatever the clean-up is given, its result is well spaced. */
  lemma TidyWellSpaced(raw: string)
    ensures WellSpaced(Tidy(raw))
  {
    TidyIsCollapse(raw);
  }

  /**
   * The group is the whole run of name characters after the first match: given
   * the first match at `q` and a run of `n` name characters after its dash that
   * the text does not continue, the group is exactly that run.
   */
  lemma NameGroupIs(text: string, q: nat, n: nat)
    requires q + 11 + n <= |text| && PatternAt(text, q)
    requires forall k :: 0 <= k < q ==> !PatternAt(text, k)
    requires forall j :: q + 11 <= j < q + 11 + n ==> IsNameChar(text[j])
    requires q + 11 + n == |text| || !IsNameChar(text[q + 11 + n])
    ensures NameGroup(text) == Some(text[q + 11 .. q + 11 + n])
  {
    assert SearchFrom(text, 0) == Some(q);
    assert NameRunLength(text, q + 11) == n;
  }

  /**
   * The primary name of a container is the tidied run of name characters after
   * the first course code and dash of its stripped text, kept when its length
   * is within the window.
   */
  lemma PrimaryNameIs(content: string, q: nat, n: nat)
    requires var text := Trim(content);
      && |text| > 10 && q + 11 + n <= |text| && PatternAt(text, q)
      && (forall k :: 0 <= k < q ==> !PatternAt(text, k))
      && (forall j :: q + 11 <= j < q + 11 + n ==> IsNameChar(text[j]))
      && (q + 11 + n == |text| || !IsNameChar(text[q + 11 + n]))
    ensures var name := Tidy(Trim(content)[q + 11 .. q + 11 + n]);
      PrimaryName(content) == if NameLengthOk(name) then Some(name) else None
  {
    NameGroupIs(Trim(content), q, n);
  }

  /**
   * The fallback reads the stripped text after its first '-': given a '-' in
   * the container, a digit among the first 15 stripped characters, and the
   * first '-' of the stripped text at `d`, what is read is everything after it.
   */
  lemma AfterDashIs(content: string, d: nat)
    requires '-' in content && HasDigit(Prefix(Trim(content), 15))
    requires d < |Trim(content)| && Trim(content)[d] == '-'
    requires forall k :: 0 <= k < d ==> Trim(content)[k] != '-'
    ensures AfterDash(content) == Some(Trim(content)[d + 1..])
  {
    assert FindFrom(Trim(content), '-', 0) == Some(d);
  }

  /**
   * The fallback name of a container is the tidied stripped text after its
   * first '-', kept when its length is within the window.
   */
  lemma FallbackNameIs(content: string, d: nat)
    requires '-' in content && HasDigit(Prefix(Trim(content), 15))
    requires d < |Trim(content)| && Trim(content)[d] == '-'
    requires forall k :: 0 <= k < d ==> Trim(content)[k] != '-'
    ensures var name := Tidy(Trim(content)[d + 1..]);
      FallbackName(content) == if NameLengthOk(name) then Some(name) else None
  {
    AfterDashIs(content, d);
  }

  /** A checked well-spaced name is a good name. */
  lemma CheckedShape(name: string)
    requires WellSpaced(name)
    ensures var r := CheckedName(name); r.Some? ==> GoodName(r.value)
  {
  }

  /** Every primary name is a good name in the primary alphabet. */
  lemma PrimaryNameShape(content: string)
    ensures var r := PrimaryName(content);
      r.Some? ==> GoodName(r.value) && PrimaryAlphabet(r.value)
  {
    var group := PrimaryGroup(content);
    if group.Some? {
      TidyGroup(group.value);
      CheckedShape(Tidy(group.value));
    }
  }

  /** Every fallback name is a good name. */
  lemma FallbackNameShape(content: string)
    ensures var r := FallbackName(content); r.Some? ==> GoodName(r.value)
  {
    var rest := AfterDash(content);
    if rest.Some? {
      var name := Tidy(rest.value);
      TidyWellSpaced(rest.value);
      CheckedShape(name);
    }
  }

  /** The primary pass is a per-container map: it distributes over concatenation. */
  lemma PrimaryPassAppend(a: seq<string>, b: seq<string>)
    ensures PrimaryPass(a + b) == PrimaryPass(a) + PrimaryPass(b)
  {
    CollectAppend(PrimaryName, a, b);
  }

  /** The fallback pass finds each fallback name of the containers exactly once. */
  lemma FallbackPassSet(contents: seq<string>)
    ensures NoDuplicates(FallbackPass(contents))
    ensures forall name :: name in FallbackPass(contents) <==>
      exists i :: 0 <= i < |contents| && FallbackName(contents[i]) == Some(name)
  {
    CollectNewSet(FallbackName, contents, []);
  }

  /**
   * The fallback names follow container order: one more container appends its
   * name at the end exactly when it yields a name not found before.
   */
  lemma FallbackPassSnoc(contents: seq<string>, x: string)
    ensures var before := FallbackPass(contents);
      FallbackPass(contents + [x]) ==
        match FallbackName(x)
        case None => before
        case Some(name) => if name in before then before else before + [name]
  {
    CollectNewSnoc(FallbackName, contents, x, []);
  }

  /** Every name the fallback pass finds is a good name. */
  lemma FallbackPassShape(contents: seq<string>)
    ensures forall k :: 0 <= k < |FallbackPass(contents)| ==> GoodName(FallbackPass(contents)[k])
  {
    FallbackPassSet(contents);
    var r := FallbackPass(contents);
    forall k | 0 <= k < |r|
      ensures GoodName(r[k])
    {
      assert r[k] in r;
      var i :| 0 <= i < |contents| && FallbackName(contents[i]) == Some(r[k]);
      FallbackNameShape(contents[i]);
    }
  }

  /** Every extracted name has 4 to 49 characters and is well spaced. */
  lemma ExtractedNamesShape(contents: seq<string>)
    ensures forall k :: 0 <= k < |ExtractAllSubjectNames(contents)| ==>
      GoodName(ExtractAllSubjectNames(contents)[k])
  {
    var primary := PrimaryPass(contents);
    if |primary| < MinPrimaryNames {
      FallbackPassShape(contents);
    } else {
      CollectFrom(PrimaryName, contents);
      forall k | 0 <= k < |primary|
        ensures GoodName(primary[k])
      {
        var i :| 0 <= i < |contents| && PrimaryName(contents[i]) == Some(primary[k]);
        PrimaryNameShape(contents[i]);
      }
    }
  }

  /** The extraction falls back exactly when the primary pass finds fewer than three names. */
  lemma FallbackIff(contents: seq<string>)
    ensures |PrimaryPass(contents)| >= MinPrimaryNames ==>
      ExtractAllSubjectNames(contents) == PrimaryPass(contents)
    ensures |PrimaryPass(contents)| < MinPrimaryNames ==>
      ExtractAllSubjectNames(contents) == FallbackPass(contents)
      && NoDuplicates(ExtractAllSubjectNames(contents))
  {
    FallbackPassSet(contents);
  }
}
