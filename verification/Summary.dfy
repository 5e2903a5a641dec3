/** The table of totals by epic. */
module Summary {
  import opened Grouping
  import opened Orders
  import opened GoText
  import opened LocationParser
  import opened RecordBuilder
  import opened Steps

  datatype Tally = Tally(total: nat, undefined: nat, pending: nat)

  datatype SummaryRow = SummaryRow(epic: string, tally: Tally)

  /** One more record with this status. */
  function Bump(t: Tally, status: string): Tally {
    Tally(t.total + 1,
          if status == UNDEFINED then t.undefined + 1 else t.undefined,
          if status == PENDING then t.pending + 1 else t.pending)
  }

  /** What a tally is meant to say about the records it counts. */
  ghost function TallyOf(records: seq<Record>): Tally {
    Tally(|records|, |Group(records, StatusOf, UNDEFINED)|, |Group(records, StatusOf, PENDING)|)
  }

  lemma TallySnoc(records: seq<Record>, r: Record)
    ensures TallyOf(records + [r]) == Bump(TallyOf(records), r.status)
  {
    GroupSnoc(records, r, StatusOf, UNDEFINED);
    GroupSnoc(records, r, StatusOf, PENDING);
  }

  lemma TallyPermutation(xs: seq<Record>, ys: seq<Record>)
    requires multiset(xs) == multiset(ys)
    ensures TallyOf(xs) == TallyOf(ys)
  {
    PermutationLength(xs, ys);
    GroupPermutation(xs, ys, StatusOf, UNDEFINED);
    GroupPermutation(xs, ys, StatusOf, PENDING);
  }

  /** On parsed records nothing falls between the two statuses. */
  lemma {:induction false} StatusSplit(records: seq<Record>)
    requires Parsed(records)
    ensures var t := TallyOf(records); t.total == t.undefined + t.pending
  {
    if records == [] {
    } else {
      var front, last := records[..|records| - 1], records[|records| - 1];
      assert records == front + [last];
      StatusSplit(front);
      TallySnoc(front, last);
      assert last in records;
    }
  }

  /** Counting two lists one after the other: each epic's tallies add up. */
  lemma TallyConcat(xs: seq<Record>, ys: seq<Record>, epic: string)
    ensures var a, b := TallyOf(Group(xs, EpicOf, epic)), TallyOf(Group(ys, EpicOf, epic));
      TallyOf(Group(xs + ys, EpicOf, epic))
      == Tally(a.total + b.total, a.undefined + b.undefined, a.pending + b.pending)
  {
    GroupConcat(xs, ys, EpicOf, epic);
    GroupConcat(Group(xs, EpicOf, epic), Group(ys, EpicOf, epic), StatusOf, UNDEFINED);
    GroupConcat(Group(xs, EpicOf, epic), Group(ys, EpicOf, epic), StatusOf, PENDING);
  }

  lemma AscendingOfSorted(visited: seq<string>, keys: seq<string>, all: set<string>)
    requires Enumerates(visited, all)
    requires multiset(keys) == multiset(visited) && SortedBy(keys, Less)
    ensures Ascending(keys, Less) && Enumerates(keys, all)
  {
    PermutationDistinct(visited, keys);
    PermutationMembers(visited, keys);
    forall i, j | 0 <= i < j < |keys| ensures Less(keys[i], keys[j]) {
      assert !Less(keys[j], keys[i]) && keys[i] != keys[j];
      LessOrders(keys[i], keys[j], keys[i]);
    }
  }

  lemma AscendingExists(all: set<string>) returns (keys: seq<string>)
    ensures Ascending(keys, Less) && Enumerates(keys, all)
  {
    LessIsTotalOrder();
    var visited := ListingExists(all);
    keys := SortedExists(visited, Less);
    AscendingOfSorted(visited, keys, all);
  }

  /** The keys of a map, visited in any order and sorted. */
  method SortedKeys(all: set<string>) returns (keys: seq<string>)
    ensures Ascending(keys, Less)
    ensures Enumerates(keys, all)
  {
    var visited := Enumerate(all);
    LessIsTotalOrder();
    var a := new string[|visited|](i requires 0 <= i < |visited| => visited[i]);
    assert a[..] == visited;
    SortSlice(a, Less);
    keys := a[..];
    AscendingOfSorted(visited, keys, all);
  }

  /** An ascending listing of a set is unique. */
  lemma AscendingUnique(a: seq<string>, b: seq<string>, all: set<string>)
    requires Ascending(a, Less) && Enumerates(a, all)
    requires Ascending(b, Less) && Enumerates(b, all)
    ensures a == b
  {
    LessIsTotalOrder();
    forall i, j | 0 <= i < j < |a| ensures !Less(a[j], a[i]) { LessOrders(a[i], a[j], a[i]); }
    forall i, j | 0 <= i < j < |b| ensures !Less(b[j], b[i]) { LessOrders(b[i], b[j], b[i]); }
    DistinctPermutation(a, b);
    SortedPermutationsTie(a, b, Less);
    forall i | 0 <= i < |a| ensures a[i] == b[i] {
      assert Tied(Less, a[i], b[i]);
      LessTotal(a[i], b[i]);
    }
  }

  function Epics(rows: seq<SummaryRow>): seq<string> {
    seq(|rows|, i requires 0 <= i < |rows| => rows[i].epic)
  }

  ghost predicate IsSummary(records: seq<Record>, rows: seq<SummaryRow>) {
    && Ascending(Epics(rows), Less)
    && Enumerates(Epics(rows), KeySet(records, EpicOf))
    && forall i :: 0 <= i < |rows| ==> rows[i].tally == TallyOf(Group(records, EpicOf, rows[i].epic))
  }

  method CountByEpic(records: seq<Record>) returns (byEpic: map<string, Tally>)
    ensures byEpic.Keys == KeySet(records, EpicOf)
    ensures forall e :: e in byEpic ==> byEpic[e] == TallyOf(Group(records, EpicOf, e))
  {
    byEpic := map[];
    for i := 0 to |records|
      invariant byEpic.Keys == KeySet(records[..i], EpicOf)
      invariant forall e :: e in byEpic ==> byEpic[e] == TallyOf(Group(records[..i], EpicOf, e))
    {
      var rec, seen := records[i], records[..i];
      assert records[..i + 1] == seen + [rec];
      KeySetSnoc(seen, rec, EpicOf);
      forall e ensures Group(seen + [rec], EpicOf, e)
                       == if rec.epic == e then Group(seen, EpicOf, e) + [rec] else Group(seen, EpicOf, e) {
        GroupSnoc(seen, rec, EpicOf, e);
      }
      GroupElements(seen, EpicOf, rec.epic);
      TallySnoc(Group(seen, EpicOf, rec.epic), rec);
      var item := if rec.epic in byEpic then byEpic[rec.epic] else Tally(0, 0, 0);
      byEpic := byEpic[rec.epic := Bump(item, rec.status)];
    }
    assert records[..|records|] == records;
  }

  method Summarize(records: seq<Record>) returns (rows: seq<SummaryRow>)
    ensures IsSummary(records, rows)
  {
    var byEpic := CountByEpic(records);
    var epics := SortedKeys(byEpic.Keys);
    rows := [];
    for i := 0 to |epics|
      invariant |rows| == i
      invariant forall j :: 0 <= j < i ==> rows[j] == SummaryRow(epics[j], TallyOf(Group(records, EpicOf, epics[j])))
    {
      assert epics[i] in byEpic;
      rows := rows + [SummaryRow(epics[i], byEpic[epics[i]])];
    }
    assert Epics(rows) == epics;
  }

  lemma SummaryExists(records: seq<Record>) returns (rows: seq<SummaryRow>)
    ensures IsSummary(records, rows)
  {
    var epics := AscendingExists(KeySet(records, EpicOf));
    rows := seq(|epics|, i requires 0 <= i < |epics| =>
      SummaryRow(epics[i], TallyOf(Group(records, EpicOf, epics[i]))));
    assert Epics(rows) == epics;
  }

  /** The summary is a function of the multiset of records. */
  lemma SummariesAgree(xs: seq<Record>, ys: seq<Record>, a: seq<SummaryRow>, b: seq<SummaryRow>)
    requires multiset(xs) == multiset(ys)
    requires IsSummary(xs, a) && IsSummary(ys, b)
    ensures a == b
  {
    KeySetPermutation(xs, ys, EpicOf);
    AscendingUnique(Epics(a), Epics(b), KeySet(xs, EpicOf));
    assert |a| == |Epics(a)| == |b|;
    forall i | 0 <= i < |a| ensures a[i] == b[i] {
      assert Epics(a)[i] == Epics(b)[i];
      GroupPermutation(xs, ys, EpicOf, a[i].epic);
      TallyPermutation(Group(xs, EpicOf, a[i].epic), Group(ys, EpicOf, a[i].epic));
    }
  }
}
