/**
 * `prepare_results_for_web`: the dictionary the web page renders, built from
 * the two count lists and the subject names. It agrees with the console report
 * on the totals, the percentages and the verdict; its subject names, however,
 * are taken by position in the count lists, which no longer line up with the
 * names once a subject has been dropped (see `NamesMisboundAfterDrop`).
 * `ResultsFromRecords` binds each row's name from the subject its counts came from.
 */
module WebResults {
  import opened Wrappers
  import opened Chars
  import opened Attendance

  /** One row of the subjects table. */
  datatype WebSubject = WebSubject(id: nat, name: string, conducted: nat, attended: nat, percentage: real)

  /** The dictionary handed to the page, without its timestamp. */
  datatype WebResults = WebResults(subjects: seq<WebSubject>, totalConducted: nat, totalAttended: nat,
                                   overallPercentage: real, status: string, statusClass: string)

  /** The word the page shows for a verdict. */
  function StatusLabel(s: Status): string {
    match s
    case Good => "GOOD"
    case Warning => "WARNING"
    case Critical => "CRITICAL"
  }

  /** The CSS class the page colours a verdict with. */
  function StatusClass(s: Status): string {
    match s
    case Good => "success"
    case Warning => "warning"
    case Critical => "danger"
  }

  /** The label names the verdict unambiguously, and so does the class. */
  lemma LabelsDistinguishVerdicts(s: Status, t: Status)
    ensures StatusLabel(s) == StatusLabel(t) <==> s == t
    ensures StatusClass(s) == StatusClass(t) <==> s == t
  {
    if s != t {
      assert StatusLabel(s)[0] != StatusLabel(t)[0] || |StatusLabel(s)| != |StatusLabel(t)|;
      assert StatusClass(s)[0] != StatusClass(t)[0] || |StatusClass(s)| != |StatusClass(t)|;
    }
  }

  /** The name the page gives position `i` (0-based): the i-th name, or "Subject <i + 1>". */
  function PositionalName(names: seq<string>, i: nat): string {
    if i < |names| then names[i] else "Subject " + Decimal(i + 1)
  }

  /** The shared tail of the dictionary: totals, overall percentage and verdict. */
  function Summary(subjects: seq<WebSubject>, conducted: seq<nat>, attended: seq<nat>): (r: WebResults)
    ensures r.subjects == subjects
    ensures r.totalConducted == Sum(conducted) && r.totalAttended == Sum(attended)
    ensures r.overallPercentage == Percentage(Sum(attended), Sum(conducted))
    ensures r.status == StatusLabel(Classify(r.overallPercentage))
    ensures r.statusClass == StatusClass(Classify(r.overallPercentage))
  {
    var overall := Percentage(Sum(attended), Sum(conducted));
    var verdict := Classify(overall);
    WebResults(subjects, Sum(conducted), Sum(attended), overall, StatusLabel(verdict), StatusClass(verdict))
  }

  /** `prepare_results_for_web` as written: row `i` takes the name at position `i`. */
  function PrepareResultsForWeb(conducted: seq<nat>, attended: seq<nat>, names: seq<string>): (r: Option<WebResults>)
    ensures r.None? <==> conducted == [] || attended == []
    ensures r.Some? ==> |r.value.subjects| == if |conducted| <= |attended| then |conducted| else |attended|
    ensures r.Some? ==> forall i :: 0 <= i < |r.value.subjects| ==>
      r.value.subjects[i] == WebSubject(i + 1, PositionalName(names, i), conducted[i], attended[i],
                                        Percentage(attended[i], conducted[i]))
  {
    if conducted == [] || attended == [] then None
    else
      var n := if |conducted| <= |attended| then |conducted| else |attended|;
      var subjects := seq(n, i requires 0 <= i < n =>
        WebSubject(i + 1, PositionalName(names, i), conducted[i], attended[i], Percentage(attended[i], conducted[i])));
      Some(Summary(subjects, conducted, attended))
  }

  /**
   * The page and the console report are made together or not at all, and agree
   * on every subject's counts and percentage, on the totals and on the verdict.
   */
  lemma WebAgreesWithConsole(conducted: seq<nat>, attended: seq<nat>, names: seq<string>)
    ensures PrepareResultsForWeb(conducted, attended, names).Some? <==> CalculateResults(conducted, attended).Some?
    ensures PrepareResultsForWeb(conducted, attended, names).Some? ==>
      var web := PrepareResultsForWeb(conducted, attended, names).value;
      var console := CalculateResults(conducted, attended).value;
      |web.subjects| == |console.lines|
      && (forall i :: 0 <= i < |web.subjects| ==>
            web.subjects[i].conducted == console.lines[i].conducted
            && web.subjects[i].attended == console.lines[i].attended
            && web.subjects[i].percentage == console.lines[i].percentage)
      && web.totalConducted == console.totalConducted && web.totalAttended == console.totalAttended
      && web.overallPercentage == console.percentage
      && web.status == StatusLabel(console.status) && web.statusClass == StatusClass(console.status)
  {
  }

  /**
   * The page's verdict in whole numbers of sessions, over the complete lists:
   * "GOOD" exactly when 100 * attended >= 75 * conducted with something conducted.
   */
  lemma WebStatusByCounts(conducted: seq<nat>, attended: seq<nat>, names: seq<string>)
    requires conducted != [] && attended != []
    ensures var web := PrepareResultsForWeb(conducted, attended, names).value;
      (web.status == "GOOD" <==>
         Sum(conducted) > 0 && 100 * Sum(attended) >= 75 * Sum(conducted))
      && (web.status == "WARNING" <==>
         Sum(conducted) > 0 && 65 * Sum(conducted) <= 100 * Sum(attended) < 75 * Sum(conducted))
  {
    var web := PrepareResultsForWeb(conducted, attended, names).value;
    var verdict := Classify(web.overallPercentage);
    ReportStatus(conducted, attended);
    LabelsDistinguishVerdicts(verdict, Good);
    LabelsDistinguishVerdicts(verdict, Warning);
  }

  /**
   * As written, the names drift: when subject 1's click raises and subject 2's
   * counts are both found, the only row carries subject 2's counts under
   * subject 1's name.
   */
  lemma NamesMisboundAfterDrop(first: Icon, second: Icon)
    requires first.clickRaises
    requires Complete(ProcessIcon(["Maths", "Physics"], second, 2))
    ensures var data := CountsOf(["Maths", "Physics"], [first, second]);
      var row := PrepareResultsForWeb(data.conducted, data.attended, data.names).value.subjects[0];
      var subject2 := ProcessIcon(["Maths", "Physics"], second, 2);
      Some(row.conducted) == subject2.conducted && Some(row.attended) == subject2.attended
      && row.name == "Maths" && subject2.name == "Physics"
  {
    var names := ["Maths", "Physics"];
    var records := RecordsOf(names, [first, second]);
    RecordAt(names, [first, second], 0);
    RecordAt(names, [first, second], 1);
    OneDropped(records);
  }

  /** Dropping the first of two records keeps exactly the second. */
  lemma OneDropped(records: seq<SubjectRecord>)
    requires |records| == 2 && !Complete(records[0]) && Complete(records[1])
    ensures CompleteRecords(records) == [records[1]]
  {
    assert records[..1][..0] == [];
  }

  /**
   * The rows as the page evidently means them: each complete record in page
   * order, under the name the extraction loop bound to that very subject.
   */
  function ResultsFromRecords(kept: seq<SubjectRecord>): (r: Option<WebResults>)
    requires forall k :: 0 <= k < |kept| ==> kept[k].conducted.Some? && kept[k].attended.Some?
    ensures r.None? <==> kept == []
    ensures r.Some? ==> |r.value.subjects| == |kept|
    ensures r.Some? ==> forall k :: 0 <= k < |kept| ==>
      r.value.subjects[k].name == kept[k].name
      && Some(r.value.subjects[k].conducted) == kept[k].conducted
      && Some(r.value.subjects[k].attended) == kept[k].attended
  {
    if kept == [] then None
    else
      var conducted := ConductedOf(kept);
      var attended := AttendedOf(kept);
      var subjects := seq(|kept|, k requires 0 <= k < |kept| =>
        WebSubject(k + 1, kept[k].name, conducted[k], attended[k], Percentage(attended[k], conducted[k])));
      Some(Summary(subjects, conducted, attended))
  }

  /** The page for an extraction, with every name bound through its own subject. */
  function WebReport(names: seq<string>, icons: seq<Icon>): Option<WebResults> {
    ResultsFromRecords(CompleteRecords(RecordsOf(names, icons)))
  }

  /**
   * Row `k` of the corrected page shows, under the name subject `i + 1` was
   * given by the extraction loop, the two counts read from icon `i`.
   */
  lemma WebReportNamesBound(names: seq<string>, icons: seq<Icon>, k: nat) returns (i: nat)
    requires WebReport(names, icons).Some? && k < |WebReport(names, icons).value.subjects|
    ensures i < |icons|
    ensures var row := WebReport(names, icons).value.subjects[k];
      var r := ProcessIcon(names, icons[i], i + 1);
      row.name == BindName(names, i + 1) && Some(row.conducted) == r.conducted && Some(row.attended) == r.attended
  {
    var records := RecordsOf(names, icons);
    var kept := CompleteRecords(records);
    CompleteRecordsMembers(records);
    assert kept[k] in records;
    i :| 0 <= i < |records| && records[i] == kept[k];
    RecordAt(names, icons, i);
  }

  /**
   * Binding names through the records changes nothing but the names: the counts,
   * percentages, totals and verdict are those of the page as written.
   */
  lemma CorrectedKeepsFigures(names: seq<string>, icons: seq<Icon>)
    ensures var data := CountsOf(names, icons);
      var fixed := WebReport(names, icons);
      var written := PrepareResultsForWeb(data.conducted, data.attended, data.names);
      fixed.Some? == written.Some?
      && (fixed.Some? ==>
            |fixed.value.subjects| == |written.value.subjects|
            && (forall k :: 0 <= k < |fixed.value.subjects| ==>
                  fixed.value.subjects[k].(name := "") == written.value.subjects[k].(name := ""))
            && fixed.value.(subjects := []) == written.value.(subjects := []))
  {
  }

  /** The loop's name for subject `i + 1` is the page's name for position `i`. */
  lemma BindNameIsPositional(names: seq<string>, i: nat)
    ensures BindName(names, i + 1) == PositionalName(names, i)
  {
  }

  /** When no subject is dropped, the page as written and the corrected page coincide. */
  lemma NoDropNoDrift(names: seq<string>, icons: seq<Icon>)
    requires forall i :: 0 <= i < |icons| ==> Complete(ProcessIcon(names, icons[i], i + 1))
    ensures var data := CountsOf(names, icons);
      WebReport(names, icons) == PrepareResultsForWeb(data.conducted, data.attended, data.names)
  {
    var records := RecordsOf(names, icons);
    forall k | 0 <= k < |records|
      ensures Complete(records[k]) && records[k].name == PositionalName(names, k)
    {
      RecordAt(names, icons, k);
      BindNameIsPositional(names, k);
    }
    AllCompleteKeepsAll(records);
    SameNamesSamePage(records, names);
  }

  /** Complete records named by position give the page as written. */
  lemma SameNamesSamePage(records: seq<SubjectRecord>, names: seq<string>)
    requires forall k :: 0 <= k < |records| ==> records[k].conducted.Some? && records[k].attended.Some?
    requires forall k :: 0 <= k < |records| ==> records[k].name == PositionalName(names, k)
    ensures ResultsFromRecords(records) == PrepareResultsForWeb(ConductedOf(records), AttendedOf(records), names)
  {
  }
}
