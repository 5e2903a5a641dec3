/**
  The one thing a run leaves open. The record sort does not compare samples and is not stable, and the file
  map is visited in any order, so a shown sample may change from run to run. Here: exactly when it cannot,
  for one step of a section, for one row of the step table, and for the whole report. The conditions
  speak of the records of the input lines, so they can be checked without running the program.
 */
module Samples {
  import opened Grouping
  import opened Orders
  import opened GoText
  import opened LocationParser
  import opened RecordBuilder
  import opened Steps
  import opened TopSteps
  import opened Details
  import opened ViewAgreement
  import opened Inventory

  /** The records the input lines stand for, in input order. */
  function RecordsOf(world: World, lines: seq<string>): seq<Record> {
    Collect(Collect(lines, ParseLine), world.RecordOf)
  }

  lemma SameRecords(world: World, lines: seq<string>, records: seq<Record>)
    requires IsBuild(world, Collect(lines, ParseLine), Built(records))
    ensures forall r :: r in records <==> r in RecordsOf(world, lines)
  {
    PermutationMembers(records, RecordsOf(world, lines));
  }

  /** Another run: records i and j change places, and so they do in what the report is counted from. */
  lemma OtherRun(world: World, lines: seq<string>, records: seq<Record>, i: nat, j: nat) returns (p: Outcome)
    requires Collect(lines, ParseLine) != []
    requires IsBuild(world, Collect(lines, ParseLine), Built(records))
    requires i < j < |records| && Blind(records[i]) == Blind(records[j])
    ensures IsOutcome(world, lines, p) && p.Reported? && IsReport(Exchange(records, i, j), p.report)
  {
    var other := Exchange(records, i, j);
    ExchangedIsBuild(world, Collect(lines, ParseLine), records, i, j);
    var report := ReportExists(other);
    p := Reported(report);
    assert Presents(Built(other), p);
  }

  lemma ReportedHasLocations(world: World, lines: seq<string>, o: Outcome)
    requires IsOutcome(world, lines, o) && o.Reported?
    ensures Collect(lines, ParseLine) != []
  {
  }

  /** Where the first record of a group is, and where another one is. */
  lemma LaterIndex<K>(records: seq<Record>, key: Record -> K, odd: Record) returns (i: nat, j: nat)
    requires Group(records, key, key(odd)) != [] && odd in records && odd != Group(records, key, key(odd))[0]
    ensures i < j < |records| && records[j] == odd && records[i] == Group(records, key, key(odd))[0]
    ensures key(records[i]) == key(odd)
    ensures forall n :: 0 <= n < i ==> key(records[n]) != key(odd)
  {
    i := FirstIndex(records, key, key(odd));
    j :| 0 <= j < |records| && records[j] == odd;
  }

  /** If a tied record carries another sample than the first of its group, some run puts that one first. */
  lemma OtherFirst<K>(world: World, lines: seq<string>, records: seq<Record>, key: Record -> K, odd: Record)
    returns (p: Outcome, other: seq<Record>)
    requires Collect(lines, ParseLine) != []
    requires IsBuild(world, Collect(lines, ParseLine), Built(records))
    requires Group(records, key, key(odd)) != []
    requires odd in records && odd.sample != Group(records, key, key(odd))[0].sample
    requires Blind(odd) == Blind(Group(records, key, key(odd))[0])
    ensures IsOutcome(world, lines, p) && p.Reported? && IsReport(other, p.report)
    ensures Group(other, key, key(odd)) != [] && Group(other, key, key(odd))[0] == odd
  {
    var i, j := LaterIndex(records, key, odd);
    GroupFirstSwapped(records, key, i, j);
    other := Exchange(records, i, j);
    p := OtherRun(world, lines, records, i, j);
  }

  // ----- one step of one section -----

  /** r is a record of the step in the section. */
  predicate Listed(r: Record, feature: string, step: string) {
    FeatureKey(r) == feature && StepKey(r) == step
  }

  /** Records that share both keys differ in the sample only. */
  lemma BlindOfKeys(r: Record, q: Record)
    requires IsStatus(r.status) && IsStatus(q.status) && NUL !in r.epic && NUL !in q.epic
    requires FeatureKey(r) == FeatureKey(q) && StepKey(r) == StepKey(q)
    ensures Blind(r) == Blind(q)
  {
    JoinKeyInjective(r.epic, r.feature, q.epic, q.feature);
    StepKeyInjective(r, q);
  }

  /** The sample a section shows for a step is that of its first record with both keys. */
  lemma SectionSample(records: seq<Record>, sec: Section, c: Counter)
    requires IsSection(records, sec) && c in sec.steps
    ensures var g := Group(records, Pair(FeatureKey, StepKey), (sec.key, c.key));
      g != [] && c.sample == g[0].sample && g[0] in records && Listed(g[0], sec.key, c.key)
  {
    GroupTwice(records, FeatureKey, sec.key, StepKey, c.key);
    var g := Group(records, Pair(FeatureKey, StepKey), (sec.key, c.key));
    GroupElements(records, Pair(FeatureKey, StepKey), (sec.key, c.key));
    assert g[0] in g;
    assert Pair(FeatureKey, StepKey)(g[0]) == (sec.key, c.key);
  }

  /** The sections of two runs on the same lines have the same keys. */
  lemma SameSections(world: World, lines: seq<string>, o: Outcome, p: Outcome)
    requires IsOutcome(world, lines, o) && IsOutcome(world, lines, p) && o.Reported?
    ensures p.Reported? && Keys(p.report.details) == Keys(o.report.details)
  {
    RunsAgree(world, lines, lines, o, p);
    var a, b := o.report.details, p.report.details;
    assert |a| == |HideSections(a)| == |HideSections(b)| == |b|;
    forall i | 0 <= i < |a| ensures a[i].key == b[i].key {
      assert HideSections(a)[i] == HideSections(b)[i];
    }
  }

  /** All records of the step in the section carry the same sample. */
  ghost predicate IsSettledIn(all: seq<Record>, feature: string, step: string) {
    forall r, q :: r in all && q in all && Listed(r, feature, step) && Listed(q, feature, step) ==> r.sample == q.sample
  }

  /** Some run shows another sample for the step in the section. */
  ghost predicate CanChangeIn(world: World, lines: seq<string>, i: nat, c: Counter) {
    exists p, d :: IsOutcome(world, lines, p) && p.Reported? && i < |p.report.details|
                   && d in p.report.details[i].steps && d.key == c.key && d.sample != c.sample
  }

  /** The sample of a step in a section can change exactly if its records there carry different samples. */
  lemma SectionSampleIff(world: World, lines: seq<string>, o: Outcome, i: nat, c: Counter)
    requires IsOutcome(world, lines, o) && o.Reported? && world.NulFree()
    requires i < |o.report.details| && c in o.report.details[i].steps
    ensures IsSettledIn(RecordsOf(world, lines), o.report.details[i].key, c.key) <==> !CanChangeIn(world, lines, i, c)
  {
    var records := RecordsBehind(world, lines, o);
    var f := o.report.details[i].key;
    SameRecords(world, lines, records);
    SectionSample(records, o.report.details[i], c);
    if IsSettledIn(RecordsOf(world, lines), f, c.key) && CanChangeIn(world, lines, i, c) {
      var p, d :| IsOutcome(world, lines, p) && p.Reported? && i < |p.report.details|
                  && d in p.report.details[i].steps && d.key == c.key && d.sample != c.sample;
      SettledStays(world, lines, o, i, c, p, d);
    }
    if !IsSettledIn(RecordsOf(world, lines), f, c.key) {
      var first := Group(records, Pair(FeatureKey, StepKey), (f, c.key))[0];
      var odd :| odd in records && Listed(odd, f, c.key) && odd.sample != first.sample;
      UnsettledChanges(world, lines, o, records, i, c, odd);
    }
  }

  lemma SettledStays(world: World, lines: seq<string>, o: Outcome, i: nat, c: Counter, p: Outcome, d: Counter)
    requires IsOutcome(world, lines, o) && o.Reported? && i < |o.report.details| && c in o.report.details[i].steps
    requires IsOutcome(world, lines, p) && p.Reported? && i < |p.report.details| && d in p.report.details[i].steps
    requires d.key == c.key && IsSettledIn(RecordsOf(world, lines), o.report.details[i].key, c.key)
    ensures d.sample == c.sample
  {
    SameSections(world, lines, o, p);
    assert Keys(o.report.details)[i] == Keys(p.report.details)[i];
    var xs := RecordsBehind(world, lines, o);
    var ys := RecordsBehind(world, lines, p);
    SameRecords(world, lines, xs);
    SameRecords(world, lines, ys);
    SectionSample(xs, o.report.details[i], c);
    SectionSample(ys, p.report.details[i], d);
  }

  lemma UnsettledChanges(world: World, lines: seq<string>, o: Outcome, records: seq<Record>,
                         i: nat, c: Counter, odd: Record)
    requires IsOutcome(world, lines, o) && o.Reported?
    requires IsBuild(world, Collect(lines, ParseLine), Built(records)) && IsReport(records, o.report)
    requires Parsed(records) && NamesNulFree(records)
    requires i < |o.report.details| && c in o.report.details[i].steps
    requires odd in records && Listed(odd, o.report.details[i].key, c.key) && odd.sample != c.sample
    ensures CanChangeIn(world, lines, i, c)
  {
    var key := Pair(FeatureKey, StepKey);
    SectionSample(records, o.report.details[i], c);
    BlindOfKeys(odd, Group(records, key, key(odd))[0]);
    ReportedHasLocations(world, lines, o);
    var p, other := OtherFirst(world, lines, records, key, odd);
    SameSections(world, lines, o, p);
    assert Keys(o.report.details)[i] == Keys(p.report.details)[i];
    var sec := p.report.details[i];
    GroupTwice(other, FeatureKey, sec.key, StepKey, c.key);
    var d := CounterOf(Group(other, FeatureKey, sec.key), c.key, Local);
    assert d in sec.steps && d.key == c.key && d.sample == odd.sample;
  }

  // ----- one row of the step table -----

  /** The order of sections, on records. */
  predicate HomeLess(a: Record, b: Record) {
    if a.epic != b.epic then Less(a.epic, b.epic) else Less(a.feature, b.feature)
  }

  /** r is a record of the step in the least epic and feature that has one. */
  predicate IsFront(all: seq<Record>, step: string, r: Record) {
    && r in all && StepKey(r) == step
    && forall q :: q in all && StepKey(q) == step ==> !HomeLess(q, r)
  }

  /** All records of the step in its least epic and feature carry the same sample. */
  ghost predicate IsSettled(all: seq<Record>, step: string) {
    forall r, q :: IsFront(all, step, r) && IsFront(all, step, q) ==> r.sample == q.sample
  }

  /** Some run shows another sample in the row of the step. */
  ghost predicate CanChange(world: World, lines: seq<string>, c: Counter) {
    exists p, d :: IsOutcome(world, lines, p) && p.Reported?
                   && d in p.report.top && d.key == c.key && d.sample != c.sample
  }

  /** Two front records of a step differ in the sample only. */
  lemma FrontsTie(all: seq<Record>, step: string, r: Record, q: Record)
    requires Parsed(all) && IsFront(all, step, r) && IsFront(all, step, q)
    ensures Blind(r) == Blind(q)
  {
    StepKeyInjective(r, q);
    LessOrders(r.epic, q.epic, r.epic);
    LessOrders(r.feature, q.feature, r.feature);
  }

  /** The sample of a row is that of a front record. */
  lemma RowSample(records: seq<Record>, rows: seq<Counter>, c: Counter)
    requires SortedBy(records, RecordLess) && Parsed(records)
    requires IsTopTable(records, rows) && c in rows
    ensures var g := Group(records, StepKey, c.key);
      g != [] && c.sample == g[0].sample && IsFront(records, c.key, g[0])
  {
    TopTableIsOptimal(records, rows);
    var g := Group(records, StepKey, c.key);
    GroupElements(records, StepKey, c.key);
    GroupSorted(records, RecordLess, StepKey, c.key);
    assert g[0] in g;
    forall q | q in records && StepKey(q) == c.key ensures !HomeLess(q, g[0]) {
      assert q in g;
      var n :| 0 <= n < |g| && g[n] == q;
      StepKeyInjective(q, g[0]);
      RecordLessTies(q, q);
      LessOrders(q.epic, g[0].epic, q.epic);
      LessOrders(q.feature, g[0].feature, q.feature);
    }
  }

  /** The sample of a row can change exactly if the front records of its step carry different samples. */
  lemma RowSampleIff(world: World, lines: seq<string>, o: Outcome, c: Counter)
    requires IsOutcome(world, lines, o) && o.Reported? && c in o.report.top
    ensures IsSettled(RecordsOf(world, lines), c.key) <==> !CanChange(world, lines, c)
  {
    var records := RecordsBehind(world, lines, o);
    SameRecords(world, lines, records);
    RowSample(records, o.report.top, c);
    if IsSettled(RecordsOf(world, lines), c.key) && CanChange(world, lines, c) {
      var p, d :| IsOutcome(world, lines, p) && p.Reported?
                  && d in p.report.top && d.key == c.key && d.sample != c.sample;
      SettledRowStays(world, lines, o, c, p, d);
    }
    if !IsSettled(RecordsOf(world, lines), c.key) {
      var first := Group(records, StepKey, c.key)[0];
      var odd :| IsFront(records, c.key, odd) && odd.sample != first.sample;
      UnsettledRowChanges(world, lines, o, records, c, odd);
    }
  }

  lemma SettledRowStays(world: World, lines: seq<string>, o: Outcome, c: Counter, p: Outcome, d: Counter)
    requires IsOutcome(world, lines, o) && o.Reported? && c in o.report.top
    requires IsOutcome(world, lines, p) && p.Reported? && d in p.report.top
    requires d.key == c.key && IsSettled(RecordsOf(world, lines), c.key)
    ensures d.sample == c.sample
  {
    var xs := RecordsBehind(world, lines, o);
    var ys := RecordsBehind(world, lines, p);
    SameRecords(world, lines, xs);
    SameRecords(world, lines, ys);
    RowSample(xs, o.report.top, c);
    RowSample(ys, p.report.top, d);
  }

  lemma UnsettledRowChanges(world: World, lines: seq<string>, o: Outcome, records: seq<Record>, c: Counter, odd: Record)
    requires IsOutcome(world, lines, o) && o.Reported? && c in o.report.top
    requires IsBuild(world, Collect(lines, ParseLine), Built(records)) && IsReport(records, o.report) && Parsed(records)
    requires IsFront(records, c.key, odd) && odd.sample != c.sample
    ensures CanChange(world, lines, c)
  {
    RowSample(records, o.report.top, c);
    FrontsTie(records, c.key, odd, Group(records, StepKey, c.key)[0]);
    ReportedHasLocations(world, lines, o);
    var p, other := OtherFirst(world, lines, records, StepKey, odd);
    RunsAgree(world, lines, lines, o, p);
    var i :| 0 <= i < |o.report.top| && o.report.top[i] == c;
    assert HideAll(o.report.top)[i] == HideAll(p.report.top)[i];
    TopTableIsOptimal(other, p.report.top);
    var d := p.report.top[i];
    assert d in p.report.top;
  }

  // ----- the whole report -----

  /**
    The report is the same in every run exactly if no two of the records that the input stands for differ in
    their sample only.
   */
  lemma ReportDeterminedIff(world: World, lines: seq<string>, o: Outcome)
    requires IsOutcome(world, lines, o) && o.Reported? && world.NulFree()
    ensures IsUntied(RecordsOf(world, lines)) <==> forall p :: IsOutcome(world, lines, p) ==> p == o
  {
    var all := RecordsOf(world, lines);
    if IsUntied(all) {
      forall p | IsOutcome(world, lines, p) ensures p == o {
        SameReport(world, lines, o, p);
      }
    } else {
      var r, q :| r in all && q in all && Blind(r) == Blind(q) && r != q;
      var p := OtherReport(world, lines, o, r, q);
    }
  }

  lemma SameReport(world: World, lines: seq<string>, o: Outcome, p: Outcome)
    requires IsOutcome(world, lines, o) && o.Reported? && IsOutcome(world, lines, p)
    requires IsUntied(RecordsOf(world, lines))
    ensures p == o
  {
    RunsAgree(world, lines, lines, o, p);
    var xs := RecordsBehind(world, lines, o);
    var ys := RecordsBehind(world, lines, p);
    SameRecords(world, lines, xs);
    BuildIsUnique(world, Collect(lines, ParseLine), xs, ys);
    ReportIsUnique(xs, o.report, p.report);
  }

  lemma OtherReport(world: World, lines: seq<string>, o: Outcome, r: Record, q: Record) returns (p: Outcome)
    requires IsOutcome(world, lines, o) && o.Reported? && world.NulFree()
    requires r in RecordsOf(world, lines) && q in RecordsOf(world, lines) && Blind(r) == Blind(q) && r != q
    ensures IsOutcome(world, lines, p) && p != o
  {
    var records := RecordsBehind(world, lines, o);
    SameRecords(world, lines, records);
    var i := SectionOf(records, o.report.details, r);
    var sec := o.report.details[i];
    var g := Group(records, FeatureKey, sec.key);
    GroupElements(records, FeatureKey, sec.key);
    assert r in g;
    GroupElements(g, StepKey, StepKey(r));
    assert r in Group(g, StepKey, StepKey(r));
    var c := CounterOf(g, StepKey(r), Local);
    assert c in sec.steps;
    assert Listed(r, sec.key, c.key) && Listed(q, sec.key, c.key);
    SectionSampleIff(world, lines, o, i, c);
    assert forall d :: d in sec.steps && d.key == c.key ==> IsCounter(g, Local, d) && d == c;
    var d: Counter;
    p, d :| IsOutcome(world, lines, p) && p.Reported? && i < |p.report.details|
            && d in p.report.details[i].steps && d.key == c.key && d.sample != c.sample;
  }

  // ----- an input with two reports -----

  /** Two input lines that name the same step in two places of one epic and feature name leave the report open. */
  lemma TwoPlacesTwoReports(world: World, lines: seq<string>, a: string, b: string) returns (o: Outcome, p: Outcome)
    requires world.NulFree()
    requires forall s :: s in lines && ParseLine(s).Some? ==> world.Readable(ParseLine(s).value)
    requires a in lines && b in lines && ParseLine(a).Some? && ParseLine(b).Some?
    requires world.RecordOf(ParseLine(a).value).Some? && world.RecordOf(ParseLine(b).value).Some?
    requires var r, q := world.RecordOf(ParseLine(a).value).value, world.RecordOf(ParseLine(b).value).value;
      Blind(r) == Blind(q) && r.sample != q.sample
    ensures IsOutcome(world, lines, o) && IsOutcome(world, lines, p) && o.Reported? && p.Reported? && o != p
  {
    o := OutcomeExists(world, lines);
    RunsAgree(world, lines, lines, o, o);
    var locations := Collect(lines, ParseLine);
    CollectElements(lines, ParseLine);
    CollectElements(locations, world.RecordOf);
    assert ParseLine(a).value in locations && ParseLine(b).value in locations;
    var r, q := world.RecordOf(ParseLine(a).value).value, world.RecordOf(ParseLine(b).value).value;
    assert r in RecordsOf(world, lines) && q in RecordsOf(world, lines);
    p := OtherReport(world, lines, o, r, q);
    RunsAgree(world, lines, lines, o, p);
  }

  /** Two files of one line each; nothing else can be read, and paths are shown as they are. */
  function TwoFiles(a: string, b: string, text: string): World {
    World(path => if path == a || path == b then Some([text]) else None, None, (d, path) => None)
  }

  function FeaturePath(epic: string, dir: string, name: string): string {
    "features/" + epic + "/" + dir + "/" + name
  }

  /** Free of the bytes that a path or a line could not carry. */
  predicate IsClean(s: string) {
    NUL !in s && '\n' !in s
  }

  lemma FeaturePathNames(epic: string, dir: string, name: string)
    requires '/' !in epic && '/' !in name && name != ""
    ensures EpicName(FeaturePath(epic, dir, name)) == epic
    ensures BaseName(FeaturePath(epic, dir, name)) == name
  {
    var path := FeaturePath(epic, dir, name);
    var tail := "/" + dir + "/" + name;
    assert path == "features/" + epic + tail;
    EpicNameOf(epic, tail);
    var above := "features/" + epic + "/" + dir + "/";
    assert above[|above| - 1] == '/';
    assert path == above + name + "";
    BaseNameOf(above, name, "");
  }

  lemma FeaturePathIsClean(epic: string, dir: string, name: string)
    requires IsClean(epic) && IsClean(dir) && IsClean(name)
    ensures IsClean(FeaturePath(epic, dir, name)) && Canonical(FeaturePath(epic, dir, name))
  {
    assert IsClean("features/");
    assert FeaturePath(epic, dir, name)[0] == 'f';
  }

  /** The input line that names line 1 of the file as pending. */
  function FirstLine(file: string): string {
    PrintLine(Location(PENDING, file, 1), "\t")
  }

  lemma FirstLineRecord(world: World, file: string, text: string)
    requires Canonical(file) && world.read(file) == Some([text]) && world.wd == None
    ensures ParseLine(FirstLine(file)) == Some(Location(PENDING, file, 1))
    ensures world.RecordOf(Location(PENDING, file, 1))
            == Some(Record(EpicName(file), BaseName(file), PENDING, TrimSpace(text), file + ":" + Decimal(1)))
  {
    RoundTrip(Location(PENDING, file, 1), "\t");
  }

  lemma Cancel(head: string, a: string, b: string, tail: string)
    requires a != b
    ensures head + a + tail != head + b + tail
  {
    if |a| == |b| {
      var k :| 0 <= k < |a| && a[k] != b[k];
      assert (head + a + tail)[|head| + k] == a[k];
      assert (head + b + tail)[|head| + k] == b[k];
    } else {
      assert |head + a + tail| != |head + b + tail|;
    }
  }

  lemma FeaturePathInjective(epic: string, a: string, b: string, name: string)
    requires a != b
    ensures FeaturePath(epic, a, name) != FeaturePath(epic, b, name)
  {
    var head, tail := "features/" + epic + "/", "/" + name;
    assert FeaturePath(epic, a, name) == head + a + tail;
    assert FeaturePath(epic, b, name) == head + b + tail;
    Cancel(head, a, b, tail);
  }

  /** There are two different reports for these lines. */
  ghost predicate HasTwoReports(world: World, lines: seq<string>) {
    exists o: Outcome, p: Outcome ::
      o != p && o.Reported? && p.Reported? && IsOutcome(world, lines, o) && IsOutcome(world, lines, p)
  }

  lemma TwoFilesTwoReports(x: string, y: string, text: string)
    requires x != y && Canonical(x) && Canonical(y) && NUL !in x && NUL !in y
    requires EpicName(x) == EpicName(y) && BaseName(x) == BaseName(y)
    ensures HasTwoReports(TwoFiles(x, y, text), [FirstLine(x), FirstLine(y)])
  {
    var world, lines := TwoFiles(x, y, text), [FirstLine(x), FirstLine(y)];
    FirstLineRecord(world, x, text);
    FirstLineRecord(world, y, text);
    Cancel("", x, y, ":" + Decimal(1));
    OneIsShown(x);
    OneIsShown(y);
    var o, p := TwoPlacesTwoReports(world, lines, lines[0], lines[1]);
  }

  lemma OneIsShown(x: string)
    ensures "" + x + (":" + Decimal(1)) == x + ":" + Decimal(1)
  {
  }

  /**
    Two feature files of one epic with one base name and the same step text in line 1, each named by one input
    line, always have two reports: nothing fixes which of their records comes first.
   */
  lemma SameNameTwoReports(epic: string, a: string, b: string, name: string, text: string)
    requires '/' !in epic && '/' !in name && name != "" && a != b
    requires IsClean(epic) && IsClean(a) && IsClean(b) && IsClean(name)
    ensures var x, y := FeaturePath(epic, a, name), FeaturePath(epic, b, name);
      HasTwoReports(TwoFiles(x, y, text), [FirstLine(x), FirstLine(y)])
  {
    FeaturePathNames(epic, a, name);
    FeaturePathNames(epic, b, name);
    FeaturePathIsClean(epic, a, name);
    FeaturePathIsClean(epic, b, name);
    FeaturePathInjective(epic, a, b, name);
    TwoFilesTwoReports(FeaturePath(epic, a, name), FeaturePath(epic, b, name), text);
  }

  /** For one, the lines pending features/e/a/f:1 and pending features/e/b/f:1. */
  lemma ReportIsNotDetermined()
    ensures var x, y := FeaturePath("e", "a", "f"), FeaturePath("e", "b", "f");
      HasTwoReports(TwoFiles(x, y, "Given x"), [FirstLine(x), FirstLine(y)])
  {
    SameNameTwoReports("e", "a", "b", "f", "Given x");
  }
}
