/**
 * `extract_conducted_count` and `extract_attended_count`: after a subject is
 * expanded, the page holds label spans for every subject expanded so far. Both
 * counts are read from the most recent (last) visible span whose text yields a
 * number; when none does, a fallback reads the last span whatever its visibility.
 * The conducted span holds a bare number; the attended span holds either a bare
 * number or a breakdown such as `P-12/E-1/L-0/MCR-0/R-0/Total-13`.
 */
module Counts {
  import opened Wrappers
  import opened Chars

  /** One label span: whether it is visible, and its text content (None when there is none). */
  datatype Span = Span(visible: bool, text: Option<string>)

  /** The text of a span, "" standing for a missing text content (both are falsy). */
  function TextOf(span: Span): string {
    match span.text
    case None => []
    case Some(t) => t
  }

  /** The plausibility window the scan applies to bare numbers. */
  const MinCount: nat := 1
  const MaxCount: nat := 50

  predicate Plausible(n: nat) { MinCount <= n <= MaxCount }

  /** The marker that introduces the total in an attended breakdown. */
  const TotalMarker: string := "Total-"

  // ---------------------------------------------------------------------------
  // The backward scan
  // ---------------------------------------------------------------------------

  /**
   * `for elem in reversed(spans[:n])`: the reading of the last span that gives
   * one. A span whose reading is None is skipped.
   */
  function LastReading(read: Span -> Option<nat>, spans: seq<Span>, n: nat): (r: Option<nat>)
    requires n <= |spans|
    ensures r.None? <==> forall j :: 0 <= j < n ==> read(spans[j]).None?
    ensures r.Some? ==>
      exists i :: 0 <= i < n && read(spans[i]) == r && forall j :: i < j < n ==> read(spans[j]).None?
  {
    if n == 0 then None
    else if read(spans[n - 1]).Some? then read(spans[n - 1])
    else LastReading(read, spans, n - 1)
  }

  /** The scan settles on the last span with a reading, whatever the spans before it hold. */
  lemma {:induction false} LastReadingIsLast(read: Span -> Option<nat>, spans: seq<Span>, n: nat, i: nat)
    requires i < n <= |spans|
    requires read(spans[i]).Some?
    requires forall j :: i < j < n ==> read(spans[j]).None?
    ensures LastReading(read, spans, n) == read(spans[i])
  {
    if i < n - 1 {
      LastReadingIsLast(read, spans, n - 1, i);
    }
  }

  // ---------------------------------------------------------------------------
  // Conducted
  // ---------------------------------------------------------------------------

  /** What the scan reads from one conducted span: a plausible bare number, if visible. */
  function ConductedReading(span: Span): Option<nat> {
    if !span.visible then None
    else
      var t := Trim(TextOf(span));
      if IsDigits(t) && Plausible(DigitsValue(t)) then Some(DigitsValue(t)) else None
  }

  /** The fallback reads any bare number from the last span, without the window. */
  function ConductedFallback(spans: seq<Span>): Option<nat> {
    if |spans| == 0 then None
    else
      var t := Trim(TextOf(spans[|spans| - 1]));
      if IsDigits(t) then Some(DigitsValue(t)) else None
  }

  /** `extract_conducted_count` over the conducted spans on the page. */
  function ExtractConducted(spans: seq<Span>): Option<nat> {
    match LastReading(ConductedReading, spans, |spans|)
    case Some(n) => Some(n)
    case None => ConductedFallback(spans)
  }

  /** When a visible span holds a plausible number, the last such span gives the count. */
  lemma ConductedFromLastVisible(spans: seq<Span>, i: nat)
    requires i < |spans| && ConductedReading(spans[i]).Some?
    requires forall j :: i < j < |spans| ==> ConductedReading(spans[j]).None?
    ensures ExtractConducted(spans) == ConductedReading(spans[i])
    ensures Plausible(ExtractConducted(spans).value)
  {
    LastReadingIsLast(ConductedReading, spans, |spans|, i);
  }

  /** A count outside 1..50 can only come from the fallback. */
  lemma ConductedImplausibleIsFallback(spans: seq<Span>)
    requires ExtractConducted(spans).Some? && !Plausible(ExtractConducted(spans).value)
    ensures forall j :: 0 <= j < |spans| ==> ConductedReading(spans[j]).None?
    ensures ExtractConducted(spans) == ConductedFallback(spans)
  {
  }

  /** The count is missing exactly when no visible span qualifies and the last span holds no bare number. */
  lemma ConductedNoneIff(spans: seq<Span>)
    ensures ExtractConducted(spans).None? <==>
      (forall j :: 0 <= j < |spans| ==> ConductedReading(spans[j]).None?)
      && ConductedFallback(spans).None?
  {
  }

  // ---------------------------------------------------------------------------
  // Attended
  // ---------------------------------------------------------------------------

  /**
   * `seg` is the text of `s` from `start` up to the first marker after it, or
   * to the end when there is none.
   */
  predicate SegmentFrom(s: string, start: nat, seg: string) {
    start + |seg| <= |s| && seg == s[start..start + |seg|]
    && (start + |seg| == |s| || StartsWith(s[start + |seg|..], TotalMarker))
    && forall k :: start <= k < start + |seg| ==> !StartsWith(s[k..], TotalMarker)
  }

  /**
   * `s.split("Total-")[1]`: the text between the first marker and the next one
   * (or the end); None when `s` has no marker.
   */
  function TotalSegment(s: string): (seg: Option<string>)
    ensures seg.Some? <==> Contains(s, TotalMarker)
    ensures seg.Some? ==> |seg.value| <= |s| && !Contains(seg.value, TotalMarker)
    ensures seg.Some? ==>
      IndexOf(s, TotalMarker).Some? && SegmentFrom(s, IndexOf(s, TotalMarker).value + |TotalMarker|, seg.value)
  {
    match IndexOf(s, TotalMarker)
    case None => None
    case Some(i) =>
      var after := s[i + |TotalMarker|..];
      match IndexOf(after, TotalMarker)
      case None =>
        SegmentToEnd(s, i + |TotalMarker|);
        Some(after)
      case Some(j) =>
        NoMarkerBefore(after, j);
        SegmentToMarker(s, i + |TotalMarker|, j);
        Some(after[..j])
  }

  /** With no marker after `start`, the segment runs to the end. */
  lemma SegmentToEnd(s: string, start: nat)
    requires start <= |s| && IndexOf(s[start..], TotalMarker).None?
    ensures SegmentFrom(s, start, s[start..])
  {
    forall k | start <= k < |s|
      ensures !StartsWith(s[k..], TotalMarker)
    {
      assert s[start..][k - start..] == s[k..];
    }
  }

  /** The first marker after `start`, at offset `j`, ends the segment. */
  lemma SegmentToMarker(s: string, start: nat, j: nat)
    requires start <= |s| && IndexOf(s[start..], TotalMarker) == Some(j)
    ensures j <= |s[start..]| && SegmentFrom(s, start, s[start..][..j])
  {
    assert s[start..][j..] == s[start + j..];
    assert s[start..][..j] == s[start..start + j];
    forall k | start <= k < start + j
      ensures !StartsWith(s[k..], TotalMarker)
    {
      assert s[start..][k - start..] == s[k..];
    }
  }

  /** A prefix that ends before the first marker holds no marker. */
  lemma NoMarkerBefore(s: string, j: nat)
    requires IndexOf(s, TotalMarker) == Some(j)
    ensures !Contains(s[..j], TotalMarker)
  {
    var p := s[..j];
    forall k | 0 <= k <= |p|
      ensures !StartsWith(p[k..], TotalMarker)
    {
      if k + |TotalMarker| <= |p| {
        assert p[k..][..|TotalMarker|] == s[k..][..|TotalMarker|];
      }
    }
  }

  /** The position of the first digit at or after `i`. */
  function FirstDigitFrom(s: string, i: nat): (r: Option<nat>)
    requires i <= |s|
    ensures r.Some? ==> i <= r.value < |s| && IsDigit(s[r.value])
    ensures r.Some? ==> forall k :: i <= k < r.value ==> !IsDigit(s[k])
    ensures r.None? ==> forall k :: i <= k < |s| ==> !IsDigit(s[k])
    decreases |s| - i
  {
    if i == |s| then None else if IsDigit(s[i]) then Some(i) else FirstDigitFrom(s, i + 1)
  }

  /** The length of the run of digits starting at `i`. */
  function DigitRunLength(s: string, i: nat): (n: nat)
    requires i <= |s|
    ensures i + n <= |s|
    ensures forall k :: i <= k < i + n ==> IsDigit(s[k])
    ensures i + n < |s| ==> !IsDigit(s[i + n])
    decreases |s| - i
  {
    if i == |s| || !IsDigit(s[i]) then 0 else 1 + DigitRunLength(s, i + 1)
  }

  /** `int(re.findall(r'\d+', s)[0])`, None when `s` has no digit. */
  function FirstNumber(s: string): (r: Option<nat>)
    ensures r.Some? <==> exists k :: 0 <= k < |s| && IsDigit(s[k])
  {
    match FirstDigitFrom(s, 0)
    case None => None
    case Some(i) =>
      var n := DigitRunLength(s, i);
      Some(DigitsValue(s[i..i + n]))
  }

  /**
   * The number read is the whole first run of digits: given the first digit
   * at `i` and a run of `n` digits that the text does not continue, the
   * reading is the value of exactly those digits.
   */
  lemma FirstNumberIs(s: string, i: nat, n: nat)
    requires 0 < n && i + n <= |s|
    requires forall k :: 0 <= k < i ==> !IsDigit(s[k])
    requires forall k :: i <= k < i + n ==> IsDigit(s[k])
    requires i + n == |s| || !IsDigit(s[i + n])
    ensures FirstNumber(s) == Some(DigitsValue(s[i..i + n]))
  {
    assert IsDigit(s[i]);
    assert FirstDigitFrom(s, 0) == Some(i);
    assert DigitRunLength(s, i) == n;
  }

  /** What the scan reads from one attended span, if visible. */
  function AttendedReading(span: Span): Option<nat> {
    if !span.visible then None
    else
      var t := Trim(TextOf(span));
      if t == [] then None
      else
        match TotalSegment(t)
        case Some(seg) => FirstNumber(seg)
        case None => if IsDigits(t) && Plausible(DigitsValue(t)) then Some(DigitsValue(t)) else None
  }

  /** The fallback reads the total of the last span's breakdown, visible or not. */
  function AttendedFallback(spans: seq<Span>): Option<nat> {
    if |spans| == 0 then None
    else
      match TotalSegment(TextOf(spans[|spans| - 1]))
      case None => None
      case Some(seg) => FirstNumber(seg)
  }

  /** `extract_attended_count` over the attended spans on the page. */
  function ExtractAttended(spans: seq<Span>): Option<nat> {
    match LastReading(AttendedReading, spans, |spans|)
    case Some(n) => Some(n)
    case None => AttendedFallback(spans)
  }

  /** When a visible span yields a reading, the last such span gives the count. */
  lemma AttendedFromLastVisible(spans: seq<Span>, i: nat)
    requires i < |spans| && AttendedReading(spans[i]).Some?
    requires forall j :: i < j < |spans| ==> AttendedReading(spans[j]).None?
    ensures ExtractAttended(spans) == AttendedReading(spans[i])
  {
    LastReadingIsLast(AttendedReading, spans, |spans|, i);
  }

  /** The count is missing exactly when no visible span yields a reading and the last span holds no readable total. */
  lemma AttendedNoneIff(spans: seq<Span>)
    ensures ExtractAttended(spans).None? <==>
      (forall j :: 0 <= j < |spans| ==> AttendedReading(spans[j]).None?)
      && AttendedFallback(spans).None?
  {
  }

  /** A visible breakdown without digits after its marker is skipped rather than read as a bare number. */
  lemma TotalWithoutDigitsSkipped(span: Span)
    requires span.visible
    requires var t := Trim(TextOf(span)); Contains(t, TotalMarker) && FirstNumber(TotalSegment(t).value).None?
    ensures AttendedReading(span).None?
  {
  }

  /** A bare visible number is read only inside the window. */
  lemma BareAttendedPlausible(span: Span)
    requires AttendedReading(span).Some?
    requires !Contains(Trim(TextOf(span)), TotalMarker)
    ensures Plausible(AttendedReading(span).value)
  {
  }

  /** A bare string of digits reads as its value. */
  lemma FirstNumberOfDigits(d: string)
    requires IsDigits(d)
    ensures FirstNumber(d) == Some(DigitsValue(d))
  {
    assert FirstDigitFrom(d, 0) == Some(0);
    var n := DigitRunLength(d, 0);
    assert n == |d|;
    assert d[0..n] == d;
  }

  /** The first occurrence of the marker is where the text after a 'T'-free prefix starts. */
  lemma MarkerAfterPrefix(p: string, rest: string)
    requires forall k :: 0 <= k < |p| ==> p[k] != 'T'
    ensures IndexOf(p + TotalMarker + rest, TotalMarker) == Some(|p|)
  {
    var s := p + TotalMarker + rest;
    assert s[|p|..][..|TotalMarker|] == TotalMarker;
    forall k | 0 <= k < |p|
      ensures !StartsWith(s[k..], TotalMarker)
    {
      assert s[k..][0] == p[k];
    }
  }

  /** A digit string holds no marker. */
  lemma NoMarkerInDigits(d: string)
    requires IsDigits(d)
    ensures !Contains(d, TotalMarker)
  {
    forall k | 0 <= k <= |d|
      ensures !StartsWith(d[k..], TotalMarker)
    {
      if k < |d| {
        assert d[k..][0] == d[k];
      }
    }
  }

  /**
   * A visible breakdown `<prefix>Total-<n>` whose prefix has no 'T' reads as `n`,
   * whether or not `n` lies in the window.
   */
  lemma BreakdownReadsTotal(p: string, n: nat)
    requires forall k :: 0 <= k < |p| ==> p[k] != 'T'
    requires p == [] || !IsSpace(p[0])
    ensures AttendedReading(Span(true, Some(p + TotalMarker + Decimal(n)))) == Some(n)
  {
    var d := Decimal(n);
    var s := p + TotalMarker + d;
    assert s[0] == if p == [] then 'T' else p[0];
    assert s[|s| - 1] == d[|d| - 1];
    TrimFixed(s);
    MarkerAfterPrefix(p, d);
    assert s[|p| + |TotalMarker|..] == d;
    NoMarkerInDigits(d);
    assert TotalSegment(s) == Some(d);
    FirstNumberOfDigits(d);
    DecimalRoundTrip(n);
  }

  /** The breakdown format of the portal: `P-12/E-1/L-0/MCR-0/R-0/Total-13` reads as 13. */
  lemma BreakdownExample()
    ensures AttendedReading(Span(true, Some("P-12/E-1/L-0/MCR-0/R-0/Total-13"))) == Some(13)
  {
    var p := ExamplePrefix();
    BreakdownReadsTotal(p, 13);
    ExampleText(p);
  }

  function ExamplePrefix(): (p: string)
    ensures forall k :: 0 <= k < |p| ==> p[k] != 'T'
    ensures p == [] || !IsSpace(p[0])
  {
    "P-12/E-1/L-0/MCR-0/R-0/"
  }

  lemma ExampleText(p: string)
    requires p == ExamplePrefix()
    ensures p + TotalMarker + Decimal(13) == "P-12/E-1/L-0/MCR-0/R-0/Total-13"
  {
    assert Decimal(13) == "13";
  }
}
