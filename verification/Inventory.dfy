/** The whole run, from the input lines to the three parts of the report, and what holds of every run. */
module Inventory {
  import opened Grouping
  import opened GoText
  import opened LocationParser
  import opened RecordBuilder
  import opened Steps
  import opened Summary
  import opened TopSteps
  import opened Details
  import opened ViewAgreement

  datatype Report = Report(summary: seq<SummaryRow>, top: seq<Counter>, details: seq<Section>)

  datatype Outcome = Failed(path: string) | NothingFound | Reported(report: Report)

  ghost predicate IsReport(records: seq<Record>, report: Report) {
    && IsSummary(records, report.summary)
    && IsTopTable(records, report.top)
    && IsDetails(records, report.details)
  }

  ghost predicate Presents(r: BuildResult, o: Outcome) {
    match r
    case Unreadable(path) => o == Failed(path)
    case Built(records) => o.Reported? && IsReport(records, o.report)
  }

  /** What a run on these lines may end in. */
  ghost predicate IsOutcome(world: World, lines: seq<string>, o: Outcome) {
    var locations := Collect(lines, ParseLine);
    if locations == [] then o == NothingFound
    else exists r :: IsBuild(world, locations, r) && Presents(r, o)
  }

  method PrintReport(records: seq<Record>) returns (report: Report)
    ensures IsReport(records, report)
  {
    var summary := Summarize(records);
    var top := TopTable(records);
    var details := ListDetails(records);
    report := Report(summary, top, details);
  }

  method Run(world: World, input: string) returns (o: Outcome)
    ensures match world.read(input)
            case None => o == Failed(input)
            case Some(lines) => IsOutcome(world, lines, o)
  {
    match world.read(input) {
      case None => return Failed(input);
      case Some(lines) =>
        var locations := ReadLocations(lines);
        if |locations| == 0 {
          return NothingFound;
        }
        var built := BuildRecords(world, locations);
        match built {
          case Unreadable(path) => o := Failed(path);
          case Built(records) =>
            var report := PrintReport(records);
            o := Reported(report);
        }
        assert IsBuild(world, locations, built) && Presents(built, o);
    }
  }

  // ----- existence and uniqueness -----

  lemma ReportExists(records: seq<Record>) returns (report: Report)
    ensures IsReport(records, report)
  {
    var summary := SummaryExists(records);
    var top := TopTableExists(records);
    var details := DetailsExist(records);
    report := Report(summary, top, details);
  }

  /** Every input has an outcome. */
  lemma OutcomeExists(world: World, lines: seq<string>) returns (o: Outcome)
    ensures IsOutcome(world, lines, o)
  {
    var locations := Collect(lines, ParseLine);
    if locations == [] {
      o := NothingFound;
    } else {
      var r := BuildExists(world, locations);
      match r {
        case Unreadable(path) => o := Failed(path);
        case Built(records) =>
          var report := ReportExists(records);
          o := Reported(report);
      }
      assert IsBuild(world, locations, r) && Presents(r, o);
    }
  }

  lemma CountersUnique(records: seq<Record>, a: seq<Counter>, b: seq<Counter>, scope: Scope)
    requires HideAll(a) == HideAll(b)
    requires forall c :: c in a ==> IsCounter(records, scope, c)
    requires forall c :: c in b ==> IsCounter(records, scope, c)
    ensures a == b
  {
    assert |a| == |HideAll(a)| == |b|;
    forall i | 0 <= i < |a| ensures a[i] == b[i] {
      assert HideAll(a)[i] == HideAll(b)[i];
      assert a[i] in a && b[i] in b;
    }
  }

  /** One sorted record list has one report, samples included. */
  lemma ReportIsUnique(records: seq<Record>, a: Report, b: Report)
    requires Parsed(records) && IsReport(records, a) && IsReport(records, b)
    ensures a == b
  {
    ReportsAgree(records, records, a, b);
    TopTableIsOptimal(records, a.top);
    TopTableIsOptimal(records, b.top);
    CountersUnique(records, a.top, b.top, Global);
    assert |a.details| == |HideSections(a.details)| == |b.details|;
    forall i | 0 <= i < |a.details| ensures a.details[i] == b.details[i] {
      assert HideSections(a.details)[i] == HideSections(b.details)[i];
      CountersUnique(Group(records, FeatureKey, a.details[i].key), a.details[i].steps, b.details[i].steps, Local);
    }
  }

  // ----- determinism -----

  /** The report without its samples. */
  function Masked(report: Report): Report {
    Report(report.summary, HideAll(report.top), HideSections(report.details))
  }

  lemma ParsedRecords(world: World, lines: seq<string>, records: seq<Record>)
    requires IsBuild(world, Collect(lines, ParseLine), Built(records))
    ensures Parsed(records)
    ensures world.NulFree() ==> NamesNulFree(records)
  {
    var locations := Collect(lines, ParseLine);
    RecordsAreCollected(world, locations, records);
    CollectElements(lines, ParseLine);
    forall rec | rec in records
      ensures IsStatus(rec.status)
      ensures world.NulFree() ==> NUL !in rec.epic && NUL !in rec.feature
    {
      var loc :| loc in locations && world.RecordOf(loc) == Some(rec);
      var line :| line in lines && ParseLine(line) == Some(loc);
      ParsedLocation(line);
      if world.NulFree() {
        NamesAreNulFree(world, loc);
      }
    }
  }

  /** Equal in all that is shown except the sample. */
  predicate SameCounters(a: seq<Counter>, b: seq<Counter>) {
    |a| == |b| && forall i :: 0 <= i < |a| ==>
      && a[i].key == b[i].key && a[i].count == b[i].count && a[i].epics == b[i].epics
      && a[i].status == b[i].status && a[i].text == b[i].text
  }

  predicate SameButSamples(a: Report, b: Report) {
    && a.summary == b.summary
    && SameCounters(a.top, b.top)
    && |a.details| == |b.details|
    && forall i :: 0 <= i < |a.details| ==>
      && a.details[i].key == b.details[i].key
      && a.details[i].epic == b.details[i].epic && a.details[i].feature == b.details[i].feature
      && a.details[i].tally == b.details[i].tally
      && SameCounters(a.details[i].steps, b.details[i].steps)
  }

  lemma HideAllIff(a: seq<Counter>, b: seq<Counter>)
    ensures HideAll(a) == HideAll(b) <==> SameCounters(a, b)
  {
    assert |HideAll(a)| == |a| && |HideAll(b)| == |b|;
    if HideAll(a) == HideAll(b) {
      forall i | 0 <= i < |a| ensures Hide(a[i]) == Hide(b[i]) {
        assert HideAll(a)[i] == HideAll(b)[i];
      }
    }
  }

  /** What is left of a report without samples is everything but the samples. */
  lemma MaskedIff(a: Report, b: Report)
    ensures Masked(a) == Masked(b) <==> SameButSamples(a, b)
  {
    var x, y := a.details, b.details;
    HideAllIff(a.top, b.top);
    assert |HideSections(x)| == |x| && |HideSections(y)| == |y|;
    if |x| == |y| {
      forall i | 0 <= i < |x|
        ensures HideAll(x[i].steps) == HideAll(y[i].steps) <==> SameCounters(x[i].steps, y[i].steps)
        ensures HideSections(x)[i] == HideSection(x[i]) && HideSections(y)[i] == HideSection(y[i])
      {
        HideAllIff(x[i].steps, y[i].steps);
      }
      if SameButSamples(a, b) {
        assert HideSections(x) == HideSections(y);
      }
    }
  }

  lemma ReportsAgree(xs: seq<Record>, ys: seq<Record>, a: Report, b: Report)
    requires multiset(xs) == multiset(ys) && Parsed(xs)
    requires IsReport(xs, a) && IsReport(ys, b)
    ensures Masked(a) == Masked(b)
  {
    SummariesAgree(xs, ys, a.summary, b.summary);
    TopTablesAgree(xs, ys, a.top, b.top);
    DetailsAgree(xs, ys, a.details, b.details);
  }

  /**
    Determinism of the program: two runs on the same lines in any order, with any order of every map visited
    and any behaviour of the unstable sorts on ties, end the same way, and print the same report up to samples.
   */
  lemma RunsAgree(world: World, xs: seq<string>, ys: seq<string>, a: Outcome, b: Outcome)
    requires multiset(xs) == multiset(ys)
    requires IsOutcome(world, xs, a) && IsOutcome(world, ys, b)
    ensures a.Failed? <==> b.Failed?
    ensures a.NothingFound? <==> b.NothingFound?
    ensures a.Reported? ==> Masked(a.report) == Masked(b.report) && SameButSamples(a.report, b.report)
    ensures a.NothingFound? <==> forall s :: s in xs ==> ParseLine(s) == None
    ensures a.Failed? <==> exists s :: s in xs && ParseLine(s).Some? && !world.Readable(ParseLine(s).value)
  {
    var p, q := Collect(xs, ParseLine), Collect(ys, ParseLine);
    CollectPermutation(xs, ys, ParseLine);
    PermutationLength(p, q);
    NothingParsed(xs);
    if p != [] {
      var r :| IsBuild(world, p, r) && Presents(r, a);
      var t :| IsBuild(world, q, t) && Presents(t, b);
      BuildsAgree(world, p, q, r, t);
      FailureLine(world, xs);
      if r.Built? {
        ParsedRecords(world, xs, r.records);
        ReportsAgree(r.records, t.records, a.report, b.report);
        MaskedIff(a.report, b.report);
      }
    }
  }

  lemma NothingParsed(lines: seq<string>)
    ensures Collect(lines, ParseLine) == [] <==> forall s :: s in lines ==> ParseLine(s) == None
  {
    CollectElements(lines, ParseLine);
    var locations := Collect(lines, ParseLine);
    if locations != [] {
      assert locations[0] in locations;
    }
  }

  lemma FailureLine(world: World, lines: seq<string>)
    ensures (exists loc :: loc in Collect(lines, ParseLine) && !world.Readable(loc))
            <==> exists s :: s in lines && ParseLine(s).Some? && !world.Readable(ParseLine(s).value)
  {
    CollectElements(lines, ParseLine);
    if s :| s in lines && ParseLine(s).Some? && !world.Readable(ParseLine(s).value) {
      assert ParseLine(s).value in Collect(lines, ParseLine);
    }
  }

  // ----- what every report satisfies -----

  /** The records behind a report. */
  lemma RecordsBehind(world: World, lines: seq<string>, o: Outcome) returns (records: seq<Record>)
    requires IsOutcome(world, lines, o) && o.Reported?
    ensures IsBuild(world, Collect(lines, ParseLine), Built(records)) && IsReport(records, o.report)
    ensures Parsed(records)
    ensures world.NulFree() ==> NamesNulFree(records)
  {
    var r :| IsBuild(world, Collect(lines, ParseLine), r) && Presents(r, o);
    records := r.records;
    ParsedRecords(world, lines, records);
  }

  /** In every row and every heading the total is the undefined plus the pending steps. */
  lemma StatusesSplitTotals(world: World, lines: seq<string>, o: Outcome)
    requires IsOutcome(world, lines, o) && o.Reported?
    ensures forall i :: 0 <= i < |o.report.summary| ==>
              var t := o.report.summary[i].tally; t.total == t.undefined + t.pending
    ensures forall i :: 0 <= i < |o.report.details| ==>
              var t := o.report.details[i].tally; t.total == t.undefined + t.pending
  {
    var records := RecordsBehind(world, lines, o);
    forall i | 0 <= i < |o.report.summary|
      ensures var t := o.report.summary[i].tally; t.total == t.undefined + t.pending
    {
      GroupElements(records, EpicOf, o.report.summary[i].epic);
      StatusSplit(Group(records, EpicOf, o.report.summary[i].epic));
    }
    forall i | 0 <= i < |o.report.details|
      ensures var t := o.report.details[i].tally; t.total == t.undefined + t.pending
    {
      GroupElements(records, FeatureKey, o.report.details[i].key);
      StatusSplit(Group(records, FeatureKey, o.report.details[i].key));
    }
  }

  /**
    Conservation through all levels, for each of the three columns: the lines that name an existing line of a
    file are counted once in the summary, each epic's row is the sum of that epic's sections, and each
    section's heading is the sum of the steps listed under it.
   */
  lemma ReportAddsUp(world: World, lines: seq<string>, o: Outcome, col: Column)
    requires IsOutcome(world, lines, o) && o.Reported? && world.NulFree()
    ensures SumBy(o.report.summary, RowCell(col))
            == LinesFor(world, lines, Filter(None, None, StatusText(col), None))
    ensures forall i :: 0 <= i < |o.report.summary| ==>
              Cell(o.report.summary[i].tally, col)
              == SumBy(o.report.details, SectionCell(col, o.report.summary[i].epic))
    ensures forall i :: 0 <= i < |o.report.details| ==>
              Cell(o.report.details[i].tally, col) == SumBy(o.report.details[i].steps, StepCell(col))
  {
    var records := RecordsBehind(world, lines, o);
    EpicTotalsAddUp(records, o.report.summary, col);
    AllRecordsCountLines(world, lines, records, col);
    forall i | 0 <= i < |o.report.summary|
      ensures Cell(o.report.summary[i].tally, col)
              == SumBy(o.report.details, SectionCell(col, o.report.summary[i].epic))
    {
      FeatureTotalsAddUp(records, o.report.details, o.report.summary[i].epic, col);
    }
    forall i | 0 <= i < |o.report.details|
      ensures Cell(o.report.details[i].tally, col) == SumBy(o.report.details[i].steps, StepCell(col))
    {
      var g := Group(records, FeatureKey, o.report.details[i].key);
      GroupElements(records, FeatureKey, o.report.details[i].key);
      StepCountsAddUp(g, o.report.details[i].steps, Local, col);
    }
  }

  /** The step table and the sections agree on counts, epics and samples of every row. */
  lemma ReportIsConsistent(world: World, lines: seq<string>, o: Outcome)
    requires IsOutcome(world, lines, o) && o.Reported? && world.NulFree()
    ensures forall c :: c in o.report.top ==>
              && c.count == SumBy(o.report.details, SectionCount(c.key))
              && c.epics == |EpicsListing(o.report.details, c.key)|
    ensures forall c, i, d ::
              (c in o.report.top && IsFirstListing(o.report.details, c.key, i)
               && d in o.report.details[i].steps && d.key == c.key) ==> d.sample == c.sample
  {
    var records := RecordsBehind(world, lines, o);
    var top, details := o.report.top, o.report.details;
    TableMatchesDetails(records, top, details);
    TopTableIsOptimal(records, top);
    forall c, i, d | c in top && IsFirstListing(details, c.key, i) && d in details[i].steps && d.key == c.key
      ensures d.sample == c.sample
    {
      SampleOfFirstSection(records, details, c.key, i, d);
    }
  }

  /** Section i is the first to list the step. */
  ghost predicate IsFirstListing(sections: seq<Section>, step: string, i: int) {
    && 0 <= i < |sections| && Lists(sections[i], step)
    && forall j :: 0 <= j < i ==> !Lists(sections[j], step)
  }

  // ----- every number counts input lines -----

  /** The input line stands for this record. */
  ghost predicate Yields(world: World, line: string, rec: Record) {
    ParseLine(line).Some? && world.IsRecordOf(ParseLine(line).value, rec)
  }

  /** Which records are meant: those that have the fields given. */
  datatype Filter = Filter(epic: Option<string>, feature: Option<string>, status: Option<string>, text: Option<string>)

  ghost function Accepts(f: Filter): Record -> bool {
    (r: Record) =>
      && (f.epic.Some? ==> r.epic == f.epic.value)
      && (f.feature.Some? ==> r.feature == f.feature.value)
      && (f.status.Some? ==> r.status == f.status.value)
      && (f.text.Some? ==> r.text == f.text.value)
  }

  ghost function LineWith(world: World, q: Record -> bool): string -> bool {
    line => exists rec :: Yields(world, line, rec) && q(rec)
  }

  /** The number of input lines that stand for a record with the fields given. */
  ghost function LinesFor(world: World, lines: seq<string>, f: Filter): nat {
    CountOf(lines, LineWith(world, Accepts(f)))
  }

  /** The status text that a column counts. */
  function StatusText(col: Column): Option<string> {
    match col
    case Total => None
    case Undefined => Some("undefined")
    case Pending => Some("pending")
  }

  lemma RecordsCountLines(world: World, lines: seq<string>, records: seq<Record>, f: Filter)
    requires IsBuild(world, Collect(lines, ParseLine), Built(records))
    ensures CountOf(records, Accepts(f)) == LinesFor(world, lines, f)
  {
    var q := Accepts(f);
    BuildCounts(world, Collect(lines, ParseLine), records, q);
    CollectedCount(lines, ParseLine, LocationWith(world, q), LineWith(world, q));
  }

  /** A column over a group counts the records of that group with the column's status. */
  lemma ColumnCounts<K>(records: seq<Record>, key: Record -> K, k: K, col: Column, f: Filter)
    requires forall r :: r in records ==> (key(r) == k <==> Accepts(f.(status := None))(r))
    requires f.status == StatusText(col)
    ensures Cell(TallyOf(Group(records, key, k)), col) == CountOf(records, Accepts(f))
  {
    match col
    case Total => GroupIsFilter(records, key, k, Accepts(f));
    case Undefined =>
      GroupTwice(records, key, k, StatusOf, UNDEFINED);
      GroupIsFilter(records, Pair(key, StatusOf), (k, UNDEFINED), Accepts(f));
    case Pending =>
      GroupTwice(records, key, k, StatusOf, PENDING);
      GroupIsFilter(records, Pair(key, StatusOf), (k, PENDING), Accepts(f));
  }

  lemma AllRecordsCountLines(world: World, lines: seq<string>, records: seq<Record>, col: Column)
    requires IsBuild(world, Collect(lines, ParseLine), Built(records))
    ensures Cell(TallyOf(records), col) == LinesFor(world, lines, Filter(None, None, StatusText(col), None))
  {
    var f := Filter(None, None, StatusText(col), None);
    var one := (r: Record) => 0;
    ColumnCounts(records, one, 0, col, f);
    GroupConstant(records, one, 0, 0);
    RecordsCountLines(world, lines, records, f);
  }

  /** Each cell of the summary is the number of input lines of that epic with the column's status. */
  lemma SummaryCountsLines(world: World, lines: seq<string>, o: Outcome, i: nat, col: Column)
    requires IsOutcome(world, lines, o) && o.Reported? && i < |o.report.summary|
    ensures var row := o.report.summary[i];
      Cell(row.tally, col) == LinesFor(world, lines, Filter(Some(row.epic), None, StatusText(col), None))
  {
    var records := RecordsBehind(world, lines, o);
    var f := Filter(Some(o.report.summary[i].epic), None, StatusText(col), None);
    ColumnCounts(records, EpicOf, o.report.summary[i].epic, col, f);
    RecordsCountLines(world, lines, records, f);
  }

  /** Each number in a heading is the number of input lines of that epic and feature with the column's status. */
  lemma SectionCountsLines(world: World, lines: seq<string>, o: Outcome, i: nat, col: Column)
    requires IsOutcome(world, lines, o) && o.Reported? && world.NulFree() && i < |o.report.details|
    ensures var sec := o.report.details[i];
      Cell(sec.tally, col) == LinesFor(world, lines, Filter(Some(sec.epic), Some(sec.feature), StatusText(col), None))
  {
    var records := RecordsBehind(world, lines, o);
    var sec := o.report.details[i];
    var f := Filter(Some(sec.epic), Some(sec.feature), StatusText(col), None);
    forall r | r in records ensures FeatureKey(r) == sec.key <==> Accepts(f.(status := None))(r) {
      HeadingOf(records, o.report.details, i, r);
    }
    ColumnCounts(records, FeatureKey, sec.key, col, f);
    RecordsCountLines(world, lines, records, f);
  }

  /** A record has the step of a counter exactly if it has its status and text. */
  lemma StepOf(records: seq<Record>, g: seq<Record>, scope: Scope, c: Counter, r: Record)
    requires Parsed(records) && r in records && (forall q :: q in g ==> q in records)
    requires IsCounter(g, scope, c)
    ensures StepKey(r) == c.key <==> r.status == c.status && r.text == c.text
  {
    CounterFirst(g, c.key, scope);
    StepKeyInjective(r, Group(g, StepKey, c.key)[0]);
  }

  /** The count of a table row is the number of input lines with its status and text. */
  lemma TableCountsLines(world: World, lines: seq<string>, o: Outcome, c: Counter)
    requires IsOutcome(world, lines, o) && o.Reported? && c in o.report.top
    ensures c.count == LinesFor(world, lines, Filter(None, None, Some(c.status), Some(c.text)))
  {
    var records := RecordsBehind(world, lines, o);
    var f := Filter(None, None, Some(c.status), Some(c.text));
    TopTableIsOptimal(records, o.report.top);
    forall r | r in records ensures StepKey(r) == c.key <==> Accepts(f)(r) {
      StepOf(records, records, Global, c, r);
    }
    GroupIsFilter(records, StepKey, c.key, Accepts(f));
    RecordsCountLines(world, lines, records, f);
  }

  /** The count of a step in a section is the number of input lines with its epic, feature, status and text. */
  lemma SectionStepCountsLines(world: World, lines: seq<string>, o: Outcome, i: nat, c: Counter)
    requires IsOutcome(world, lines, o) && o.Reported? && world.NulFree()
    requires i < |o.report.details| && c in o.report.details[i].steps
    ensures var sec := o.report.details[i];
      c.count == LinesFor(world, lines, Filter(Some(sec.epic), Some(sec.feature), Some(c.status), Some(c.text)))
  {
    var records := RecordsBehind(world, lines, o);
    var sec := o.report.details[i];
    var g := Group(records, FeatureKey, sec.key);
    var f := Filter(Some(sec.epic), Some(sec.feature), Some(c.status), Some(c.text));
    GroupElements(records, FeatureKey, sec.key);
    forall r | r in records ensures Pair(FeatureKey, StepKey)(r) == (sec.key, c.key) <==> Accepts(f)(r) {
      HeadingOf(records, o.report.details, i, r);
      StepOf(records, g, Local, c, r);
    }
    GroupTwice(records, FeatureKey, sec.key, StepKey, c.key);
    GroupIsFilter(records, Pair(FeatureKey, StepKey), (sec.key, c.key), Accepts(f));
    RecordsCountLines(world, lines, records, f);
  }

  /** Every input line that stands for a record is reported: in its epic's row and under its heading. */
  lemma YieldedIsReported(world: World, lines: seq<string>, o: Outcome, line: string, rec: Record)
    requires IsOutcome(world, lines, o) && o.Reported? && line in lines && Yields(world, line, rec)
    ensures rec.epic in Epics(o.report.summary)
    ensures world.NulFree() ==> Headed(o.report.details, rec.epic, rec.feature)
  {
    var records := RecordsBehind(world, lines, o);
    var loc := ParseLine(line).value;
    RecordOfIff(world, loc, rec);
    CollectElements(lines, ParseLine);
    RecordsAreCollected(world, Collect(lines, ParseLine), records);
    assert loc in Collect(lines, ParseLine) && rec in records;
    KeySetMember(records, EpicOf, rec);
    if world.NulFree() {
      var n :| 0 <= n < |records| && records[n] == rec;
      HeadingsAreFaithful(records, o.report.details, rec.epic, rec.feature);
    }
  }

  /** A line of a file below the working directory is reported under the epic that its relative path names. */
  lemma RelativeLineIsReported(world: World, lines: seq<string>, o: Outcome, line: string,
                               d: string, rel: string, epic: string)
    requires IsOutcome(world, lines, o) && o.Reported? && line in lines && ParseLine(line).Some?
    requires world.NamesLine(ParseLine(line).value)
    requires world.wd == Some(d) && world.relTo(d, ParseLine(line).value.file) == Some(rel) && !(".." <= rel)
    requires '/' !in epic && "features/" + epic + "/" <= rel
    ensures epic in Epics(o.report.summary)
    ensures world.NulFree() ==> Headed(o.report.details, epic, BaseName(ParseLine(line).value.file))
  {
    var loc := ParseLine(line).value;
    RelativeRecord(world, loc, d, rel, epic);
    var rec := world.RecordOf(loc).value;
    RecordOfIff(world, loc, rec);
    YieldedIsReported(world, lines, o, line, rec);
  }

  // ----- sections and files -----

  /** The files that some location names with a line that is there. */
  function ContributingFiles(world: World, locations: seq<Location>): set<string> {
    set i | 0 <= i < |locations| && world.RecordOf(locations[i]).Some? :: locations[i].file
  }

  /** The key of the section that the records of a file go to. */
  function HeadingOfFile(world: World, file: string): string {
    JoinKey(EpicName(world.RelativePath(file)), BaseName(file))
  }

  /** Two files that no heading tells apart. */
  predicate ShareHeading(world: World, a: string, b: string) {
    EpicName(world.RelativePath(a)) == EpicName(world.RelativePath(b)) && BaseName(a) == BaseName(b)
  }

  /** No two files share epic and base name. */
  ghost predicate HeadingsApart(world: World, files: set<string>) {
    forall a, b :: a in files && b in files && ShareHeading(world, a, b) ==> a == b
  }

  lemma RecordHeading(world: World, loc: Location)
    requires world.RecordOf(loc).Some?
    ensures FeatureKey(world.RecordOf(loc).value) == HeadingOfFile(world, loc.file)
  {
  }

  lemma FileWitness(world: World, locations: seq<Location>, file: string) returns (loc: Location)
    requires file in ContributingFiles(world, locations)
    ensures loc in locations && world.RecordOf(loc).Some? && loc.file == file
  {
    var i :| 0 <= i < |locations| && world.RecordOf(locations[i]).Some? && locations[i].file == file;
    loc := locations[i];
  }

  lemma LocationContributes(world: World, locations: seq<Location>, loc: Location)
    requires loc in locations && world.RecordOf(loc).Some?
    ensures loc.file in ContributingFiles(world, locations)
  {
    var i :| 0 <= i < |locations| && locations[i] == loc;
  }

  lemma FileHasSection(world: World, locations: seq<Location>, records: seq<Record>, file: string)
    requires IsBuild(world, locations, Built(records)) && file in ContributingFiles(world, locations)
    ensures HeadingOfFile(world, file) in KeySet(records, FeatureKey)
  {
    var loc := FileWitness(world, locations, file);
    RecordsAreCollected(world, locations, records);
    RecordHeading(world, loc);
    KeySetMember(records, FeatureKey, world.RecordOf(loc).value);
  }

  lemma SectionHasFile(world: World, locations: seq<Location>, records: seq<Record>, key: string) returns (file: string)
    requires IsBuild(world, locations, Built(records)) && key in KeySet(records, FeatureKey)
    ensures file in ContributingFiles(world, locations) && HeadingOfFile(world, file) == key
  {
    var n :| 0 <= n < |records| && FeatureKey(records[n]) == key;
    assert records[n] in records;
    RecordsAreCollected(world, locations, records);
    var loc :| loc in locations && world.RecordOf(loc) == Some(records[n]);
    RecordHeading(world, loc);
    LocationContributes(world, locations, loc);
    file := loc.file;
  }

  lemma SharedHeadingIsSharedKey(world: World, locations: seq<Location>, a: string, b: string)
    requires world.NulFree()
    requires a in ContributingFiles(world, locations) && b in ContributingFiles(world, locations)
    ensures HeadingOfFile(world, a) == HeadingOfFile(world, b) <==> ShareHeading(world, a, b)
  {
    var x := FileWitness(world, locations, a);
    var y := FileWitness(world, locations, b);
    NamesAreNulFree(world, x);
    NamesAreNulFree(world, y);
    JoinKeyInjective(EpicName(world.RelativePath(a)), BaseName(a), EpicName(world.RelativePath(b)), BaseName(b));
  }

  /** There are as many sections as contributing files exactly if no two of the files share epic and base name. */
  lemma SectionPerFileIff(world: World, lines: seq<string>, o: Outcome)
    requires IsOutcome(world, lines, o) && o.Reported? && world.NulFree()
    ensures var files := ContributingFiles(world, Collect(lines, ParseLine));
      && |o.report.details| <= |files|
      && (|o.report.details| == |files| <==> HeadingsApart(world, files))
  {
    var records := RecordsBehind(world, lines, o);
    DistinctCardinality(Keys(o.report.details), KeySet(records, FeatureKey));
    KeysPerFileIff(world, Collect(lines, ParseLine), records);
  }

  lemma KeysPerFileIff(world: World, locations: seq<Location>, records: seq<Record>)
    requires IsBuild(world, locations, Built(records)) && world.NulFree()
    ensures var files, keys := ContributingFiles(world, locations), KeySet(records, FeatureKey);
      |keys| <= |files| && (|keys| == |files| <==> HeadingsApart(world, files))
  {
    var heading: string -> string := file => HeadingOfFile(world, file);
    HeadingsCover(world, locations, records, heading);
    HeadingsTellApart(world, locations, heading);
    ImageSize(ContributingFiles(world, locations), heading, KeySet(records, FeatureKey));
  }

  lemma HeadingsCover(world: World, locations: seq<Location>, records: seq<Record>, heading: string -> string)
    requires IsBuild(world, locations, Built(records))
    requires forall file :: heading(file) == HeadingOfFile(world, file)
    ensures forall file :: file in ContributingFiles(world, locations) ==> heading(file) in KeySet(records, FeatureKey)
    ensures forall k :: k in KeySet(records, FeatureKey) ==>
              exists file :: file in ContributingFiles(world, locations) && heading(file) == k
  {
    forall file | file in ContributingFiles(world, locations) ensures heading(file) in KeySet(records, FeatureKey) {
      FileHasSection(world, locations, records, file);
    }
    forall k | k in KeySet(records, FeatureKey)
      ensures exists file :: file in ContributingFiles(world, locations) && heading(file) == k
    {
      var file := SectionHasFile(world, locations, records, k);
      assert heading(file) == k;
    }
  }

  lemma HeadingsTellApart(world: World, locations: seq<Location>, heading: string -> string)
    requires world.NulFree()
    requires forall file :: heading(file) == HeadingOfFile(world, file)
    ensures HeadingsApart(world, ContributingFiles(world, locations)) <==>
            IsInjectiveOn(heading, ContributingFiles(world, locations))
  {
    var files := ContributingFiles(world, locations);
    if HeadingsApart(world, files) {
      forall a, b | a in files && b in files && heading(a) == heading(b) ensures a == b {
        SharedHeadingIsSharedKey(world, locations, a, b);
      }
    }
    if IsInjectiveOn(heading, files) {
      forall a, b | a in files && b in files && ShareHeading(world, a, b) ensures a == b {
        SharedHeadingIsSharedKey(world, locations, a, b);
      }
    }
  }

  // ----- provenance -----

  /** The counter's status, text and sample all come from this input line and the file line it points at. */
  ghost predicate ComesFrom(world: World, line: string, c: Counter) {
    && ParseLine(line).Some?
    && var loc := ParseLine(line).value;
    && world.NamesLine(loc)
    && c.status == loc.status
    && c.text == TrimSpace(world.read(loc.file).value[loc.line - 1])
    && var shown := if world.LiesBelow(loc.file) then world.relTo(world.wd.value, loc.file).value else loc.file;
    && c.sample == shown + ":" + Decimal(loc.line)
  }

  lemma RecordProvenance(world: World, lines: seq<string>, records: seq<Record>, rec: Record)
    requires IsBuild(world, Collect(lines, ParseLine), Built(records)) && rec in records
    ensures exists line :: line in lines && ParseLine(line).Some? && world.RecordOf(ParseLine(line).value) == Some(rec)
  {
    RecordsAreCollected(world, Collect(lines, ParseLine), records);
    CollectElements(lines, ParseLine);
    var loc :| loc in Collect(lines, ParseLine) && world.RecordOf(loc) == Some(rec);
    var line :| line in lines && ParseLine(line) == Some(loc);
  }

  lemma CounterProvenance(world: World, lines: seq<string>, records: seq<Record>,
                          g: seq<Record>, c: Counter, scope: Scope)
    requires IsBuild(world, Collect(lines, ParseLine), Built(records))
    requires forall r :: r in g ==> r in records
    requires IsCounter(g, scope, c)
    ensures exists line :: line in lines && ComesFrom(world, line, c)
  {
    CounterFirst(g, c.key, scope);
    var rec := Group(g, StepKey, c.key)[0];
    RecordProvenance(world, lines, records, rec);
    var line :| line in lines && ParseLine(line).Some? && world.RecordOf(ParseLine(line).value) == Some(rec);
    RecordFields(world, line, rec, c);
  }

  lemma RecordFields(world: World, line: string, rec: Record, c: Counter)
    requires ParseLine(line).Some? && world.RecordOf(ParseLine(line).value) == Some(rec)
    requires c.status == rec.status && c.text == rec.text && c.sample == rec.sample
    ensures ComesFrom(world, line, c)
  {
    RecordOfIff(world, ParseLine(line).value, rec);
  }

  /** Every step shown, in the table or in a section, comes from one input line. */
  lemma ReportProvenance(world: World, lines: seq<string>, o: Outcome)
    requires IsOutcome(world, lines, o) && o.Reported?
    ensures forall c :: c in o.report.top ==> exists line :: line in lines && ComesFrom(world, line, c)
    ensures forall i, c :: 0 <= i < |o.report.details| && c in o.report.details[i].steps ==>
              exists line :: line in lines && ComesFrom(world, line, c)
  {
    var records := RecordsBehind(world, lines, o);
    TopTableIsOptimal(records, o.report.top);
    forall c | c in o.report.top ensures exists line :: line in lines && ComesFrom(world, line, c) {
      CounterProvenance(world, lines, records, records, c, Global);
    }
    forall i, c | 0 <= i < |o.report.details| && c in o.report.details[i].steps
      ensures exists line :: line in lines && ComesFrom(world, line, c)
    {
      GroupElements(records, FeatureKey, o.report.details[i].key);
      CounterProvenance(world, lines, records, Group(records, FeatureKey, o.report.details[i].key), c, Local);
    }
  }

  /** A status and a sample, put on one line, read back as the shown path and line exactly if the path is canonical. */
  lemma SampleReadsBack(world: World, line: string, c: Counter, space: string)
    requires ComesFrom(world, line, c)
    requires space != "" && AllBlank(space)
    ensures var loc := ParseLine(line).value; var rel := world.RelativePath(loc.file);
      ParseLine(c.status + space + c.sample) == Some(Location(c.status, rel, loc.line)) <==> Canonical(rel)
  {
    var loc := ParseLine(line).value;
    var shown := loc.(file := world.RelativePath(loc.file));
    ParsedLocation(line);
    RoundTrip(shown, space);
    Reassociate(c.status + space, shown.file, Decimal(loc.line));
  }

  lemma Reassociate(a: string, b: string, c: string)
    ensures a + b + ":" + c == a + (b + ":" + c)
  {
  }
}
