/**
 * `extract_attendance_data` and `calculate_and_display_results`: the subject
 * names are read first, the plus icons are located through the cascade, and
 * every icon is expanded in turn; a subject whose two counts are both found
 * contributes one entry to each count list. The console report sums the lists
 * and classifies the overall percentage against the configured thresholds.
 */
module Attendance {
  import opened Wrappers
  import opened Chars
  import opened Cascade
  import opened Counts
  import opened SubjectNames
  import Config

  /**
   * One plus icon, as the loop sees it: whether scrolling to it or clicking it
   * raises, and the conducted and attended spans on the page once it is expanded.
   */
  datatype Icon = Icon(clickRaises: bool, conductedSpans: seq<Span>, attendedSpans: seq<Span>)

  /** What the loop learnt about one subject; the index is 1-based, as in the source. */
  datatype SubjectRecord = SubjectRecord(index: nat, name: string, conducted: Option<nat>, attended: Option<nat>)

  /** The name the loop gives subject `index` (1-based): the pre-extracted one, or "Subject <index>". */
  function BindName(names: seq<string>, index: nat): (name: string)
    requires index >= 1
    ensures index <= |names| ==> name == names[index - 1]
    ensures index > |names| ==> name == "Subject " + Decimal(index)
  {
    if index <= |names| then names[index - 1] else "Subject " + Decimal(index)
  }

  /** The loop body for one icon: a raising click leaves both counts missing. */
  function ProcessIcon(names: seq<string>, icon: Icon, index: nat): (r: SubjectRecord)
    requires index >= 1
    ensures r.index == index && r.name == BindName(names, index)
    ensures icon.clickRaises ==> r.conducted.None? && r.attended.None?
    ensures !icon.clickRaises ==>
      r.conducted == ExtractConducted(icon.conductedSpans) && r.attended == ExtractAttended(icon.attendedSpans)
  {
    var name := BindName(names, index);
    if icon.clickRaises then SubjectRecord(index, name, None, None)
    else SubjectRecord(index, name, ExtractConducted(icon.conductedSpans), ExtractAttended(icon.attendedSpans))
  }

  /** A subject contributes to the count lists only when both of its counts were found. */
  predicate Complete(r: SubjectRecord) { r.conducted.Some? && r.attended.Some? }

  /** The complete records, in order. */
  function CompleteRecords(records: seq<SubjectRecord>): (kept: seq<SubjectRecord>)
    ensures |kept| <= |records|
    ensures forall k :: 0 <= k < |kept| ==> kept[k].conducted.Some? && kept[k].attended.Some?
  {
    if |records| == 0 then []
    else
      var last := records[|records| - 1];
      CompleteRecords(records[..|records| - 1]) + (if Complete(last) then [last] else [])
  }

  /** The conducted counts of complete records. */
  function ConductedOf(kept: seq<SubjectRecord>): (counts: seq<nat>)
    requires forall k :: 0 <= k < |kept| ==> kept[k].conducted.Some?
    ensures |counts| == |kept|
    ensures forall k :: 0 <= k < |kept| ==> counts[k] == kept[k].conducted.value
  {
    if |kept| == 0 then []
    else ConductedOf(kept[..|kept| - 1]) + [kept[|kept| - 1].conducted.value]
  }

  /** The attended counts of complete records. */
  function AttendedOf(kept: seq<SubjectRecord>): (counts: seq<nat>)
    requires forall k :: 0 <= k < |kept| ==> kept[k].attended.Some?
    ensures |counts| == |kept|
    ensures forall k :: 0 <= k < |kept| ==> counts[k] == kept[k].attended.value
  {
    if |kept| == 0 then []
    else AttendedOf(kept[..|kept| - 1]) + [kept[|kept| - 1].attended.value]
  }

  /**
   * The collecting half of the per-icon loop: the two count lists grow together,
   * by one entry for each subject whose two counts were both found.
   */
  method CollectCounts(records: seq<SubjectRecord>) returns (conducted: seq<nat>, attended: seq<nat>)
    ensures conducted == ConductedOf(CompleteRecords(records))
    ensures attended == AttendedOf(CompleteRecords(records))
  {
    conducted, attended := [], [];
    var k := 0;
    while k < |records|
      invariant 0 <= k <= |records|
      invariant conducted == ConductedOf(CompleteRecords(records[..k]))
      invariant attended == AttendedOf(CompleteRecords(records[..k]))
    {
      var record := records[k];
      CountsStep(records, k);
      if Complete(record) {
        conducted := conducted + [record.conducted.value];
        attended := attended + [record.attended.value];
      }
      k := k + 1;
    }
    assert records[..k] == records;
  }

  /** One more record adds its counts to the lists when it is complete, and nothing otherwise. */
  lemma CountsStep(records: seq<SubjectRecord>, k: nat)
    requires k < |records|
    ensures var before, after := CompleteRecords(records[..k]), CompleteRecords(records[..k + 1]);
      if Complete(records[k]) then
        ConductedOf(after) == ConductedOf(before) + [records[k].conducted.value]
        && AttendedOf(after) == AttendedOf(before) + [records[k].attended.value]
      else ConductedOf(after) == ConductedOf(before) && AttendedOf(after) == AttendedOf(before)
  {
    assert records[..k + 1][..k] == records[..k];
    var before := CompleteRecords(records[..k]);
    if Complete(records[k]) {
      var after := before + [records[k]];
      assert after[..|after| - 1] == before;
    }
  }

  /** The records of the icons in page order: subject `k + 1` comes from icon `k`. */
  function RecordsOf(names: seq<string>, icons: seq<Icon>): (records: seq<SubjectRecord>)
    ensures |records| == |icons|
  {
    seq(|icons|, k requires 0 <= k < |icons| => ProcessIcon(names, icons[k], k + 1))
  }

  /** What the extraction leaves behind: the names and the two count lists. */
  datatype AttendanceData = AttendanceData(names: seq<string>, conducted: seq<nat>, attended: seq<nat>)

  /** The names and the count lists the per-icon loop leaves for a list of icons. */
  function CountsOf(names: seq<string>, icons: seq<Icon>): (data: AttendanceData)
    ensures data.names == names && |data.conducted| == |data.attended|
  {
    var kept := CompleteRecords(RecordsOf(names, icons));
    AttendanceData(names, ConductedOf(kept), AttendedOf(kept))
  }

  /**
   * `extract_attendance_data`: the containers' texts give the names, the page
   * answers the cascade's selectors with icons, and every icon is processed.
   */
  function ExtractAttendanceData(contents: seq<string>, page: string -> Lookup<Icon>): AttendanceData {
    CountsOf(ExtractAllSubjectNames(contents), LocatePlusIcons(page))
  }

  /** The complete records are exactly the records whose two counts were found. */
  lemma {:induction false} CompleteRecordsMembers(records: seq<SubjectRecord>)
    ensures forall r :: r in CompleteRecords(records) <==> r in records && Complete(r)
  {
    if |records| > 0 {
      var init := records[..|records| - 1];
      CompleteRecordsMembers(init);
      assert records == init + [records[|records| - 1]];
    }
  }

  /** Whether subject numbers increase strictly along a list of records. */
  predicate Ascending(records: seq<SubjectRecord>) {
    forall i, j :: 0 <= i < j < |records| ==> records[i].index < records[j].index
  }

  /** Keeping the complete records keeps their page order. */
  lemma {:induction false} CompleteRecordsInOrder(records: seq<SubjectRecord>)
    requires Ascending(records)
    ensures Ascending(CompleteRecords(records))
  {
    if |records| > 0 {
      var init := records[..|records| - 1];
      var last := records[|records| - 1];
      CompleteRecordsInOrder(init);
      CompleteRecordsMembers(init);
      var kept := CompleteRecords(init);
      forall i | 0 <= i < |kept|
        ensures kept[i].index < last.index
      {
        assert kept[i] in init;
      }
    }
  }

  /** Every subject is dropped or kept whole: nothing is dropped when all counts are found. */
  lemma {:induction false} AllCompleteKeepsAll(records: seq<SubjectRecord>)
    requires forall k :: 0 <= k < |records| ==> Complete(records[k])
    ensures CompleteRecords(records) == records
  {
    if |records| > 0 {
      AllCompleteKeepsAll(records[..|records| - 1]);
      assert records == records[..|records| - 1] + [records[|records| - 1]];
    }
  }

  /** The records of a page are numbered 1, 2, ... in icon order. */
  lemma RecordsAscending(names: seq<string>, icons: seq<Icon>)
    ensures Ascending(RecordsOf(names, icons))
  {
    var records := RecordsOf(names, icons);
    forall k | 0 <= k < |records|
      ensures records[k].index == k + 1
    {
      RecordAt(names, icons, k);
    }
  }

  /** The subjects counted on a page keep their page order. */
  lemma CountedInPageOrder(names: seq<string>, icons: seq<Icon>)
    ensures Ascending(CompleteRecords(RecordsOf(names, icons)))
  {
    RecordsAscending(names, icons);
    CompleteRecordsInOrder(RecordsOf(names, icons));
  }

  /** With no plus icon found, the names survive and both count lists are empty. */
  lemma NoIconsNoCounts(contents: seq<string>, page: string -> Lookup<Icon>)
    requires LocatePlusIcons(page) == []
    ensures var data := ExtractAttendanceData(contents, page);
      data.names == ExtractAllSubjectNames(contents) && data.conducted == [] && data.attended == []
  {
  }

  /**
   * The k-th conducted and attended counts belong to one subject: both are the
   * counts of the subject of some icon `i` (whose click therefore did not raise).
   */
  lemma CountsPaired(names: seq<string>, icons: seq<Icon>, k: nat) returns (i: nat)
    requires k < |CountsOf(names, icons).conducted|
    ensures i < |icons|
    ensures var data := CountsOf(names, icons);
      var r := ProcessIcon(names, icons[i], i + 1);
      k < |data.attended| && r.conducted == Some(data.conducted[k]) && r.attended == Some(data.attended[k])
  {
    var records := RecordsOf(names, icons);
    i := KeptRecordOrigin(records, k);
    RecordAt(names, icons, i);
  }

  /** Every complete record comes from somewhere in the records. */
  lemma KeptRecordOrigin(records: seq<SubjectRecord>, k: nat) returns (i: nat)
    requires k < |CompleteRecords(records)|
    ensures i < |records| && records[i] == CompleteRecords(records)[k]
  {
    CompleteRecordsMembers(records);
    assert CompleteRecords(records)[k] in records;
    i :| 0 <= i < |records| && records[i] == CompleteRecords(records)[k];
  }

  /**
   * Every subject whose two counts are found is kept, at some position `k` of the
   * complete records, and so of both count lists (`ProcessIcon` says when that
   * is: the click did not raise and both extractions succeeded).
   */
  lemma CompleteIconCounted(names: seq<string>, icons: seq<Icon>, i: nat) returns (k: nat)
    requires i < |icons| && Complete(ProcessIcon(names, icons[i], i + 1))
    ensures k < |CompleteRecords(RecordsOf(names, icons))|
    ensures CompleteRecords(RecordsOf(names, icons))[k] == ProcessIcon(names, icons[i], i + 1)
  {
    RecordAt(names, icons, i);
    k := CompleteRecordCounted(RecordsOf(names, icons), i);
  }

  /** Subject `i + 1` is the record of icon `i`. */
  lemma RecordAt(names: seq<string>, icons: seq<Icon>, i: nat)
    requires i < |icons|
    ensures RecordsOf(names, icons)[i] == ProcessIcon(names, icons[i], i + 1)
  {
  }

  /** A complete record's counts appear, side by side, at some position `k` of the two lists. */
  lemma CompleteRecordCounted(records: seq<SubjectRecord>, i: nat) returns (k: nat)
    requires i < |records| && Complete(records[i])
    ensures k < |CompleteRecords(records)|
    ensures CompleteRecords(records)[k] == records[i]
  {
    var kept := CompleteRecords(records);
    CompleteRecordsMembers(records);
    assert records[i] in kept;
    k :| 0 <= k < |kept| && kept[k] == records[i];
  }

  // ---------------------------------------------------------------------------
  // calculate_and_display_results
  // ---------------------------------------------------------------------------

  /** The three verdicts, against `Config.GoodThreshold` and `Config.WarningThreshold`. */
  datatype Status = Good | Warning | Critical

  /** `sum` over a count list. */
  function Sum(xs: seq<nat>): nat {
    if xs == [] then 0 else Sum(xs[..|xs| - 1]) + xs[|xs| - 1]
  }

  /** Sums respect a pointwise bound. */
  lemma {:induction false} SumPointwise(xs: seq<nat>, ys: seq<nat>)
    requires |xs| == |ys|
    requires forall i :: 0 <= i < |xs| ==> xs[i] <= ys[i]
    ensures Sum(xs) <= Sum(ys)
  {
    if xs != [] {
      SumPointwise(xs[..|xs| - 1], ys[..|ys| - 1]);
    }
  }

  /** A sum is zero exactly when every count is. */
  lemma {:induction false} SumZeroIff(xs: seq<nat>)
    ensures Sum(xs) == 0 <==> forall i :: 0 <= i < |xs| ==> xs[i] == 0
  {
    if xs != [] {
      SumZeroIff(xs[..|xs| - 1]);
    }
  }

  /** `attended / conducted * 100`, or 0 when nothing was conducted. */
  function Percentage(attended: nat, conducted: nat): (p: real)
    ensures p >= 0.0
    ensures conducted == 0 ==> p == 0.0
    ensures conducted > 0 ==> p * conducted as real == 100.0 * attended as real
  {
    if conducted > 0 then (attended as real / conducted as real) * 100.0 else 0.0
  }

  /** The verdict for a percentage: at least 75 is good, at least 65 a warning. */
  function Classify(p: real): (s: Status)
    ensures s == Good <==> p >= Config.GoodThreshold as real
    ensures s == Warning <==> Config.WarningThreshold as real <= p < Config.GoodThreshold as real
    ensures s == Critical <==> p < Config.WarningThreshold as real
  {
    if p >= Config.GoodThreshold as real then Good
    else if p >= Config.WarningThreshold as real then Warning
    else Critical
  }

  /** A percentage never exceeds 100 when no more was attended than conducted. */
  lemma PercentageAtMost100(attended: nat, conducted: nat)
    requires attended <= conducted
    ensures Percentage(attended, conducted) <= 100.0
  {
    if conducted > 0 {
      var p := Percentage(attended, conducted);
      var c := conducted as real;
      assert p * c <= 100.0 * c;
    }
  }

  /**
   * The verdict in whole numbers: with something conducted, good means
   * 100 * attended >= 75 * conducted and a warning 65 * conducted <= 100 * attended
   * short of that; with nothing conducted the verdict is critical.
   */
  lemma StatusByCounts(attended: nat, conducted: nat)
    ensures conducted == 0 ==> Classify(Percentage(attended, conducted)) == Critical
    ensures conducted > 0 ==>
      (Classify(Percentage(attended, conducted)) == Good <==>
         100 * attended >= Config.GoodThreshold * conducted)
    ensures conducted > 0 ==>
      (Classify(Percentage(attended, conducted)) == Warning <==>
         Config.WarningThreshold * conducted <= 100 * attended < Config.GoodThreshold * conducted)
  {
    if conducted > 0 {
      var p := Percentage(attended, conducted);
      var c := conducted as real;
      AtLeastByCounts(p, c, attended, Config.GoodThreshold);
      AtLeastByCounts(p, c, attended, Config.WarningThreshold);
    }
  }

  /** `p >= t` exactly when `100 * a >= t * c`, for `p * c == 100 * a` and `c > 0`. */
  lemma AtLeastByCounts(p: real, c: real, a: nat, t: nat)
    requires c > 0.0 && p * c == 100.0 * a as real
    ensures p >= t as real <==> 100.0 * a as real >= t as real * c
  {
    if p >= t as real {
      assert p * c >= t as real * c;
    } else {
      assert p * c < t as real * c;
    }
  }

  /** One line of the subject-wise breakdown; subjects are numbered from 1. */
  datatype SubjectLine = SubjectLine(number: nat, attended: nat, conducted: nat, percentage: real)

  /** What the console report shows. */
  datatype Report = Report(lines: seq<SubjectLine>, totalConducted: nat, totalAttended: nat,
                           percentage: real, status: Status)

  /** `calculate_and_display_results`: no report when either list is empty. */
  function CalculateResults(conducted: seq<nat>, attended: seq<nat>): (r: Option<Report>)
    ensures r.None? <==> conducted == [] || attended == []
    ensures r.Some? ==> |r.value.lines| == if |conducted| <= |attended| then |conducted| else |attended|
    ensures r.Some? ==> forall i :: 0 <= i < |r.value.lines| ==>
      r.value.lines[i] == SubjectLine(i + 1, attended[i], conducted[i], Percentage(attended[i], conducted[i]))
  {
    if conducted == [] || attended == [] then None
    else
      var n := if |conducted| <= |attended| then |conducted| else |attended|;
      var lines := seq(n, i requires 0 <= i < n =>
        SubjectLine(i + 1, attended[i], conducted[i], Percentage(attended[i], conducted[i])));
      var overall := Percentage(Sum(attended), Sum(conducted));
      Some(Report(lines, Sum(conducted), Sum(attended), overall, Classify(overall)))
  }

  /** The overall verdict of the report, in whole numbers of sessions. */
  lemma ReportStatus(conducted: seq<nat>, attended: seq<nat>)
    requires conducted != [] && attended != []
    ensures var r := CalculateResults(conducted, attended).value;
      (r.status == Good <==> Sum(conducted) > 0 && 100 * Sum(attended) >= Config.GoodThreshold * Sum(conducted))
      && (r.status == Warning <==>
            Sum(conducted) > 0 && Config.WarningThreshold * Sum(conducted) <= 100 * Sum(attended) < Config.GoodThreshold * Sum(conducted))
  {
    StatusByCounts(Sum(attended), Sum(conducted));
  }

  /** When no subject was attended more often than conducted, the overall percentage is at most 100. */
  lemma ReportAtMost100(conducted: seq<nat>, attended: seq<nat>)
    requires conducted != [] && |attended| == |conducted|
    requires forall i :: 0 <= i < |conducted| ==> attended[i] <= conducted[i]
    ensures CalculateResults(conducted, attended).value.percentage <= 100.0
  {
    SumPointwise(attended, conducted);
    PercentageAtMost100(Sum(attended), Sum(conducted));
  }
}
