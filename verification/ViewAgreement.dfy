/**
  The summary, the step table and the details are counted by three separate loops.
  Here: the numbers they print agree with each other and lose no record.
 */
module ViewAgreement {
  import opened Grouping
  import opened Orders
  import opened GoText
  import opened LocationParser
  import opened RecordBuilder
  import opened Steps
  import opened Summary
  import opened TopSteps
  import opened Details

  /** No NUL byte in the names that feature keys are joined from. */
  ghost predicate NamesNulFree(records: seq<Record>) {
    forall r :: r in records ==> NUL !in r.epic && NUL !in r.feature
  }

  // ----- headings -----

  lemma HeadingOf(records: seq<Record>, sections: seq<Section>, i: nat, r: Record)
    requires NamesNulFree(records) && IsDetails(records, sections) && i < |sections|
    requires r in records
    ensures FeatureKey(r) == sections[i].key <==> r.epic == sections[i].epic && r.feature == sections[i].feature
  {
    assert Keys(sections)[i] == sections[i].key;
    assert sections[i].key in Keys(sections);
    GroupElements(records, FeatureKey, sections[i].key);
    var q := Group(records, FeatureKey, sections[i].key)[0];
    assert q in Group(records, FeatureKey, sections[i].key);
    SplitKeyIff(q.epic, q.feature);
    JoinKeyInjective(r.epic, r.feature, q.epic, q.feature);
  }

  lemma SectionOf(records: seq<Record>, sections: seq<Section>, r: Record) returns (i: nat)
    requires IsDetails(records, sections) && r in records
    ensures i < |sections| && sections[i].key == FeatureKey(r)
  {
    KeySetMember(records, FeatureKey, r);
    assert FeatureKey(r) in Keys(sections);
    var j :| 0 <= j < |Keys(sections)| && Keys(sections)[j] == FeatureKey(r);
    i := j;
  }

  predicate Occurs(records: seq<Record>, epic: string, feature: string) {
    exists i :: 0 <= i < |records| && records[i].epic == epic && records[i].feature == feature
  }

  predicate Headed(sections: seq<Section>, epic: string, feature: string) {
    exists i :: 0 <= i < |sections| && sections[i].epic == epic && sections[i].feature == feature
  }

  /** There is a heading for exactly the (epic, feature) pairs that occur. */
  lemma HeadingsAreFaithful(records: seq<Record>, sections: seq<Section>, epic: string, feature: string)
    requires NamesNulFree(records) && IsDetails(records, sections)
    ensures Occurs(records, epic, feature) <==> Headed(sections, epic, feature)
  {
    if Occurs(records, epic, feature) {
      var n :| 0 <= n < |records| && records[n].epic == epic && records[n].feature == feature;
      var i := SectionOf(records, sections, records[n]);
      HeadingOf(records, sections, i, records[n]);
    }
    if Headed(sections, epic, feature) {
      var i :| 0 <= i < |sections| && sections[i].epic == epic && sections[i].feature == feature;
      var r := SectionRecord(records, sections, i);
      var n :| 0 <= n < |records| && records[n] == r;
    }
  }

  /** A section counts exactly the records of the epic and the feature in its heading. */
  lemma SectionHoldsItsPair(records: seq<Record>, sections: seq<Section>, i: nat)
    requires NamesNulFree(records) && IsDetails(records, sections) && i < |sections|
    ensures Group(records, FeatureKey, sections[i].key)
            == Group(Group(records, EpicOf, sections[i].epic), FeatureOf, sections[i].feature)
  {
    forall r | r in records
      ensures FeatureKey(r) == sections[i].key <==> r.epic == sections[i].epic && r.feature == sections[i].feature
    {
      HeadingOf(records, sections, i, r);
    }
    GroupPair(records, sections[i].key, sections[i].epic, sections[i].feature);
  }

  function FeatureOf(r: Record): string {
    r.feature
  }

  lemma {:induction false} GroupPair(records: seq<Record>, key: string, e: string, f: string)
    requires forall r :: r in records ==> (FeatureKey(r) == key <==> r.epic == e && r.feature == f)
    ensures Group(records, FeatureKey, key) == Group(Group(records, EpicOf, e), FeatureOf, f)
  {
    if records == [] {
    } else {
      var front, last := records[..|records| - 1], records[|records| - 1];
      assert records == front + [last];
      GroupPair(front, key, e, f);
      GroupSnoc(Group(front, EpicOf, e), last, FeatureOf, f);
    }
  }

  /** Of two sections the one with the lesser epic, or the same epic and the lesser feature, comes first. */
  lemma HeadingsInPairOrder(records: seq<Record>, sections: seq<Section>, i: nat, j: nat)
    requires NamesNulFree(records) && IsDetails(records, sections)
    requires i < j < |sections|
    ensures if sections[i].epic != sections[j].epic then Less(sections[i].epic, sections[j].epic)
            else Less(sections[i].feature, sections[j].feature)
  {
    var x := SectionRecord(records, sections, i);
    var y := SectionRecord(records, sections, j);
    assert Less(Keys(sections)[i], Keys(sections)[j]);
    JoinKeyOrder(x.epic, x.feature, y.epic, y.feature);
  }

  lemma SectionRecord(records: seq<Record>, sections: seq<Section>, i: nat) returns (r: Record)
    requires NamesNulFree(records) && IsDetails(records, sections) && i < |sections|
    ensures r in records && FeatureKey(r) == sections[i].key
    ensures r.epic == sections[i].epic && r.feature == sections[i].feature
  {
    assert Keys(sections)[i] in Keys(sections);
    GroupElements(records, FeatureKey, sections[i].key);
    r := Group(records, FeatureKey, sections[i].key)[0];
    assert r in Group(records, FeatureKey, sections[i].key);
    HeadingOf(records, sections, i, r);
  }

  lemma RecordOrderIsKeyOrder(a: Record, b: Record)
    requires NUL !in a.epic && NUL !in b.epic
    requires !RecordLess(b, a)
    ensures !Less(FeatureKey(b), FeatureKey(a))
  {
    JoinKeyOrder(b.epic, b.feature, a.epic, a.feature);
    LessOrders(a.epic, b.epic, a.epic);
    LessOrders(a.feature, b.feature, a.feature);
  }

  /**
    The order of the sections is the order of the records: reading the sections' records in section order
    spells out the sorted record list, each section one contiguous block.
   */
  lemma SectionsFollowRecords(records: seq<Record>, sections: seq<Section>)
    requires NamesNulFree(records) && IsDetails(records, sections)
    requires SortedBy(records, RecordLess)
    ensures FlattenGroups(records, FeatureKey, Keys(sections)) == records
  {
    LessIsTotalOrder();
    forall i, j | 0 <= i < j < |records| ensures !Less(FeatureKey(records[j]), FeatureKey(records[i])) {
      assert records[i] in records && records[j] in records;
      RecordOrderIsKeyOrder(records[i], records[j]);
    }
    forall r | r in records ensures FeatureKey(r) in Keys(sections) {
      KeySetMember(records, FeatureKey, r);
    }
    BlocksInOrder(records, FeatureKey, Keys(sections), Less);
  }

  // ----- totals -----

  /** The three columns of a tally. */
  datatype Column = Total | Undefined | Pending

  function Cell(t: Tally, col: Column): nat {
    match col
    case Total => t.total
    case Undefined => t.undefined
    case Pending => t.pending
  }

  /** The records a column counts. */
  ghost function Counted(records: seq<Record>, col: Column): seq<Record> {
    match col
    case Total => records
    case Undefined => Group(records, StatusOf, UNDEFINED)
    case Pending => Group(records, StatusOf, PENDING)
  }

  lemma CountedCommutes<K>(records: seq<Record>, col: Column, key: Record -> K, k: K)
    ensures Group(Counted(records, col), key, k) == Counted(Group(records, key, k), col)
    ensures forall r :: r in Counted(records, col) ==> r in records
    ensures Cell(TallyOf(records), col) == |Counted(records, col)|
  {
    GroupCommute(records, StatusOf, UNDEFINED, key, k);
    GroupCommute(records, StatusOf, PENDING, key, k);
    GroupElements(records, StatusOf, UNDEFINED);
    GroupElements(records, StatusOf, PENDING);
  }

  function RowCell(col: Column): SummaryRow -> nat {
    (row: SummaryRow) => Cell(row.tally, col)
  }

  ghost function GroupSize<K>(xs: seq<Record>, key: Record -> K): K -> nat {
    k => |Group(xs, key, k)|
  }

  /** Each column of the summary adds up to the records of that column. */
  lemma EpicTotalsAddUp(records: seq<Record>, rows: seq<SummaryRow>, col: Column)
    requires IsSummary(records, rows)
    ensures SumBy(rows, RowCell(col)) == Cell(TallyOf(records), col)
  {
    var xs, keys := Counted(records, col), Epics(rows);
    CountedCommutes(records, col, EpicOf, "");
    forall i | 0 <= i < |rows| ensures RowCell(col)(rows[i]) == GroupSize(xs, EpicOf)(keys[i]) {
      CountedCommutes(records, col, EpicOf, rows[i].epic);
      CountedCommutes(Group(records, EpicOf, rows[i].epic), col, EpicOf, "");
    }
    forall r | r in xs ensures EpicOf(r) in keys {
      KeySetMember(records, EpicOf, r);
    }
    SumByKeys(rows, RowCell(col), keys, GroupSize(xs, EpicOf));
    PartitionSum(xs, EpicOf, keys, GroupSize(xs, EpicOf));
  }

  function SectionCell(col: Column, epic: string): Section -> nat {
    (sec: Section) => if sec.epic == epic then Cell(sec.tally, col) else 0
  }

  /** Each column of the sections of one epic adds up to that epic's summary row. */
  lemma FeatureTotalsAddUp(records: seq<Record>, sections: seq<Section>, epic: string, col: Column)
    requires NamesNulFree(records) && IsDetails(records, sections)
    ensures SumBy(sections, SectionCell(col, epic)) == Cell(TallyOf(Group(records, EpicOf, epic)), col)
  {
    var g := Group(records, EpicOf, epic);
    var xs, keys := Counted(g, col), Keys(sections);
    CountedCommutes(g, col, EpicOf, "");
    GroupElements(records, EpicOf, epic);
    forall i | 0 <= i < |sections| ensures SectionCell(col, epic)(sections[i]) == GroupSize(xs, FeatureKey)(keys[i]) {
      var k := sections[i].key;
      var h := Group(records, FeatureKey, k);
      CountedCommutes(g, col, FeatureKey, k);
      GroupCommute(records, EpicOf, epic, FeatureKey, k);
      GroupElements(records, FeatureKey, k);
      forall r | r in h ensures EpicOf(r) == sections[i].epic {
        HeadingOf(records, sections, i, r);
      }
      GroupConstant(h, EpicOf, epic, sections[i].epic);
      CountedCommutes(h, col, EpicOf, "");
    }
    forall r | r in xs ensures FeatureKey(r) in keys {
      KeySetMember(records, FeatureKey, r);
    }
    SumByKeys(sections, SectionCell(col, epic), keys, GroupSize(xs, FeatureKey));
    PartitionSum(xs, FeatureKey, keys, GroupSize(xs, FeatureKey));
  }

  function StepCell(col: Column): Counter -> nat {
    (c: Counter) =>
      if || col == Total
         || (col == Undefined && c.status == UNDEFINED)
         || (col == Pending && c.status == PENDING)
      then c.count else 0
  }

  lemma StepCellCounts(g: seq<Record>, c: Counter, scope: Scope, col: Column)
    requires Parsed(g) && IsCounter(g, scope, c)
    ensures StepCell(col)(c) == |Counted(Group(g, StepKey, c.key), col)|
  {
    var h := Group(g, StepKey, c.key);
    GroupElements(g, StepKey, c.key);
    CounterFirst(g, c.key, scope);
    assert h[0] in h;
    forall r | r in h ensures StatusOf(r) == c.status {
      StepKeyInjective(r, h[0]);
    }
    GroupConstant(h, StatusOf, UNDEFINED, c.status);
    GroupConstant(h, StatusOf, PENDING, c.status);
  }

  /** Each column of a section's heading is the sum of the step counts listed under it with that status. */
  lemma StepCountsAddUp(g: seq<Record>, steps: seq<Counter>, scope: Scope, col: Column)
    requires Parsed(g) && IsRanking(steps, g, scope)
    ensures SumBy(steps, StepCell(col)) == Cell(TallyOf(g), col)
  {
    var xs := Counted(g, col);
    var keys := seq(|steps|, i requires 0 <= i < |steps| => steps[i].key);
    CountedCommutes(g, col, StepKey, "");
    forall i | 0 <= i < |steps| ensures StepCell(col)(steps[i]) == GroupSize(xs, StepKey)(keys[i]) {
      assert steps[i] in steps;
      CountedCommutes(g, col, StepKey, steps[i].key);
      StepCellCounts(g, steps[i], scope, col);
    }
    forall i, j | 0 <= i < j < |keys| ensures keys[i] != keys[j] {
      RankingIsStrict(steps, g, scope, i, j);
    }
    forall r | r in xs ensures StepKey(r) in keys {
      KeySetMember(g, StepKey, r);
      GroupElements(g, StepKey, StepKey(r));
      var i :| 0 <= i < |steps| && steps[i] == CounterOf(g, StepKey(r), scope);
      assert keys[i] == StepKey(r);
    }
    SumByKeys(steps, StepCell(col), keys, GroupSize(xs, StepKey));
    PartitionSum(xs, StepKey, keys, GroupSize(xs, StepKey));
  }

  // ----- one step in all sections -----

  predicate Lists(sec: Section, step: string) {
    exists i :: 0 <= i < |sec.steps| && sec.steps[i].key == step
  }

  function CountIn(step: string): Counter -> nat {
    (c: Counter) => if c.key == step then c.count else 0
  }

  /** The count a section shows for a step, 0 if it does not list it. */
  function SectionCount(step: string): Section -> nat {
    (sec: Section) => SumBy(sec.steps, CountIn(step))
  }

  lemma {:induction false} CountInPrefix(steps: seq<Counter>, g: seq<Record>, scope: Scope, step: string, n: nat)
    requires IsRanking(steps, g, scope) && n <= |steps|
    ensures SumBy(steps[..n], CountIn(step))
            == if exists i :: 0 <= i < n && steps[i].key == step then |Group(g, StepKey, step)| else 0
  {
    if n == 0 {
    } else {
      CountInPrefix(steps, g, scope, step, n - 1);
      assert steps[..n] == steps[..n - 1] + [steps[n - 1]];
      SumBySnoc(steps[..n - 1], steps[n - 1], CountIn(step));
      assert steps[n - 1] in steps;
      forall i | 0 <= i < n - 1 ensures steps[i].key != steps[n - 1].key {
        RankingIsStrict(steps, g, scope, i, n - 1);
      }
    }
  }

  lemma SectionShows(records: seq<Record>, sec: Section, step: string)
    requires IsSection(records, sec)
    ensures var h := Group(Group(records, FeatureKey, sec.key), StepKey, step);
      SectionCount(step)(sec) == |h| && (Lists(sec, step) <==> h != [])
  {
    var g := Group(records, FeatureKey, sec.key);
    CountInPrefix(sec.steps, g, Local, step, |sec.steps|);
    assert sec.steps[..|sec.steps|] == sec.steps;
    if Group(g, StepKey, step) != [] {
      assert CounterOf(g, step, Local) in sec.steps;
    }
    if Lists(sec, step) {
      var i :| 0 <= i < |sec.steps| && sec.steps[i].key == step;
      assert sec.steps[i] in sec.steps;
    }
  }

  /** The count of a step over all records is the sum of its counts over all sections. */
  lemma StepCountAcrossSections(records: seq<Record>, sections: seq<Section>, step: string)
    requires IsDetails(records, sections)
    ensures SumBy(sections, SectionCount(step)) == |Group(records, StepKey, step)|
  {
    var xs, keys := Group(records, StepKey, step), Keys(sections);
    GroupElements(records, StepKey, step);
    forall i | 0 <= i < |sections| ensures SectionCount(step)(sections[i]) == GroupSize(xs, FeatureKey)(keys[i]) {
      SectionShows(records, sections[i], step);
      GroupCommute(records, StepKey, step, FeatureKey, sections[i].key);
    }
    forall r | r in xs ensures FeatureKey(r) in keys {
      KeySetMember(records, FeatureKey, r);
    }
    SumByKeys(sections, SectionCount(step), keys, GroupSize(xs, FeatureKey));
    PartitionSum(xs, FeatureKey, keys, GroupSize(xs, FeatureKey));
  }

  /** The epics shown by sections that list the step. */
  function EpicsListing(sections: seq<Section>, step: string): set<string> {
    set i | 0 <= i < |sections| && Lists(sections[i], step) :: sections[i].epic
  }

  lemma EpicsAcrossSections(records: seq<Record>, sections: seq<Section>, step: string)
    requires NamesNulFree(records) && IsDetails(records, sections)
    ensures KeySet(Group(records, StepKey, step), EpicOf) == EpicsListing(sections, step)
  {
    var xs := Group(records, StepKey, step);
    GroupElements(records, StepKey, step);
    forall e | e in KeySet(xs, EpicOf) ensures e in EpicsListing(sections, step) {
      var n :| 0 <= n < |xs| && EpicOf(xs[n]) == e;
      var r := xs[n];
      assert r in xs;
      var i := SectionOf(records, sections, r);
      HeadingOf(records, sections, i, r);
      SectionShows(records, sections[i], step);
      GroupElements(records, FeatureKey, sections[i].key);
      GroupElements(Group(records, FeatureKey, sections[i].key), StepKey, step);
      assert r in Group(Group(records, FeatureKey, sections[i].key), StepKey, step);
      assert Lists(sections[i], step);
    }
    forall i | 0 <= i < |sections| && Lists(sections[i], step) ensures sections[i].epic in KeySet(xs, EpicOf) {
      SectionShows(records, sections[i], step);
      var h := Group(Group(records, FeatureKey, sections[i].key), StepKey, step);
      assert h[0] in h;
      GroupElements(records, FeatureKey, sections[i].key);
      GroupElements(Group(records, FeatureKey, sections[i].key), StepKey, step);
      HeadingOf(records, sections, i, h[0]);
      KeySetMember(xs, EpicOf, h[0]);
    }
  }

  /**
    Cross-view agreement: a row of the step table shows as count the sum of the counts its step has in the
    sections, and as epics the number of distinct epics whose sections list it. A step that the sections list
    and the table leaves out adds up to no more than any row, and is left out only from a full table.
   */
  lemma TableMatchesDetails(records: seq<Record>, rows: seq<Counter>, sections: seq<Section>)
    requires NamesNulFree(records) && IsTopTable(records, rows) && IsDetails(records, sections)
    ensures forall c :: c in rows ==>
              c.count == SumBy(sections, SectionCount(c.key)) && c.epics == |EpicsListing(sections, c.key)|
    ensures forall s :: EpicsListing(sections, s) != {} && (forall c :: c in rows ==> c.key != s) ==>
              |rows| == 40 && forall c :: c in rows ==> SumBy(sections, SectionCount(s)) <= c.count
  {
    TopTableIsOptimal(records, rows);
    forall c | c in rows
      ensures c.count == SumBy(sections, SectionCount(c.key)) && c.epics == |EpicsListing(sections, c.key)|
    {
      StepCountAcrossSections(records, sections, c.key);
      EpicsAcrossSections(records, sections, c.key);
    }
    forall s | EpicsListing(sections, s) != {} && (forall c :: c in rows ==> c.key != s)
      ensures |rows| == 40 && forall c :: c in rows ==> SumBy(sections, SectionCount(s)) <= c.count
    {
      StepCountAcrossSections(records, sections, s);
      EpicsAcrossSections(records, sections, s);
      assert Group(records, StepKey, s) != [];
      assert CounterOf(records, s, Global) !in rows;
      OmittedMeansFull(records, rows, s);
    }
  }

  lemma OmittedMeansFull(records: seq<Record>, rows: seq<Counter>, s: string)
    requires IsTopTable(records, rows)
    requires Group(records, StepKey, s) != [] && CounterOf(records, s, Global) !in rows
    ensures |rows| == 40
  {
    var items :| IsRanking(items, records, Global) && rows == Top(items);
    assert CounterOf(records, s, Global) in items;
  }

  // ----- samples -----

  /**
    The sample in the step table is the sample of the first section that lists the step,
    although the two loops decide differently when to write it.
   */
  lemma SampleOfFirstSection(records: seq<Record>, sections: seq<Section>, step: string, i: nat, c: Counter)
    requires NamesNulFree(records) && IsDetails(records, sections)
    requires SortedBy(records, RecordLess)
    requires Group(records, StepKey, step) != []
    requires i < |sections| && Lists(sections[i], step)
    requires forall j :: 0 <= j < i ==> !Lists(sections[j], step)
    requires c in sections[i].steps && c.key == step
    ensures c.sample == CounterOf(records, step, Global).sample
  {
    var xs := Group(records, StepKey, step);
    var first := xs[0];
    GroupElements(records, StepKey, step);
    assert first in xs;
    var home := SectionOf(records, sections, first);
    SectionShows(records, sections[home], step);
    GroupCommute(records, StepKey, step, FeatureKey, sections[home].key);
    GroupHead(xs, FeatureKey);
    assert i <= home;
    FirstSectionIsHome(records, sections, step, i, home);
  }

  /** In the sorted list no record of a step has a lesser feature key than the first one. */
  lemma FirstIsLeast(records: seq<Record>, step: string, r: Record)
    requires NamesNulFree(records) && SortedBy(records, RecordLess)
    requires r in Group(records, StepKey, step)
    ensures !Less(FeatureKey(r), FeatureKey(Group(records, StepKey, step)[0]))
  {
    var xs := Group(records, StepKey, step);
    GroupElements(records, StepKey, step);
    GroupSorted(records, RecordLess, StepKey, step);
    var n :| 0 <= n < |xs| && xs[n] == r;
    assert xs[0] in xs;
    RecordLessTies(r, r);
    RecordOrderIsKeyOrder(xs[0], r);
  }

  lemma FirstSectionIsHome(records: seq<Record>, sections: seq<Section>, step: string, i: nat, home: nat)
    requires NamesNulFree(records) && IsDetails(records, sections)
    requires SortedBy(records, RecordLess)
    requires Group(records, StepKey, step) != []
    requires i <= home < |sections| && Lists(sections[i], step)
    requires sections[home].key == FeatureKey(Group(records, StepKey, step)[0])
    ensures i == home
  {
    SectionShows(records, sections[i], step);
    GroupCommute(records, StepKey, step, FeatureKey, sections[i].key);
    var xs := Group(records, StepKey, step);
    var h := Group(xs, FeatureKey, sections[i].key);
    assert h[0] in h;
    GroupElements(xs, FeatureKey, sections[i].key);
    FirstIsLeast(records, step, h[0]);
    assert Keys(sections)[i] == sections[i].key && Keys(sections)[home] == sections[home].key;
  }
}
