/** The table of the steps that occur most often. */
module TopSteps {
  import opened Grouping
  import opened Orders
  import opened RecordBuilder
  import opened Steps

  const TOP: nat := 40

  /** A map entry while counting; no entry yet means no epic set yet. */
  datatype Aggregate = Aggregate(count: nat, epics: Option<set<string>>, status: string, text: string, sample: string)

  const ZERO := Aggregate(0, None, "", "", "")

  ghost predicate IsAggregate(g: seq<Record>, item: Aggregate) {
    && g != []
    && item == Aggregate(|g|, Some(KeySet(g, EpicOf)), g[0].status, g[0].text, g[0].sample)
  }

  /** One record more under its step. */
  function Absorb(item: Aggregate, rec: Record): Aggregate {
    var entry := if item.epics == None
                  then item.(epics := Some({}), status := rec.status, text := rec.text, sample := rec.sample)
                  else item;
    entry.(count := entry.count + 1, epics := Some(entry.epics.value + {rec.epic}))
  }

  lemma AbsorbSnoc(g: seq<Record>, item: Aggregate, rec: Record)
    requires if g == [] then item == ZERO else IsAggregate(g, item)
    ensures IsAggregate(g + [rec], Absorb(item, rec))
  {
    KeySetSnoc(g, rec, EpicOf);
    assert (g + [rec])[0] == if g == [] then rec else g[0];
    if g == [] {
      assert KeySet(g, EpicOf) == {};
    }
  }

  method CountByStep(records: seq<Record>) returns (byStep: map<string, Aggregate>)
    ensures byStep.Keys == KeySet(records, StepKey)
    ensures forall s :: s in byStep ==> IsAggregate(Group(records, StepKey, s), byStep[s])
  {
    byStep := map[];
    for i := 0 to |records|
      invariant byStep.Keys == KeySet(records[..i], StepKey)
      invariant forall s :: s in byStep ==> IsAggregate(Group(records[..i], StepKey, s), byStep[s])
    {
      var rec, seen := records[i], records[..i];
      var key := StepKey(rec);
      assert records[..i + 1] == seen + [rec];
      KeySetSnoc(seen, rec, StepKey);
      forall s ensures Group(seen + [rec], StepKey, s)
                       == if key == s then Group(seen, StepKey, s) + [rec] else Group(seen, StepKey, s) {
        GroupSnoc(seen, rec, StepKey, s);
      }
      GroupElements(seen, StepKey, key);
      var item := if key in byStep then byStep[key] else ZERO;
      AbsorbSnoc(Group(seen, StepKey, key), item, rec);
      byStep := byStep[key := Absorb(item, rec)];
    }
    assert records[..|records|] == records;
  }

  method ListCounters(ghost records: seq<Record>, byStep: map<string, Aggregate>) returns (items: seq<Counter>)
    requires byStep.Keys == KeySet(records, StepKey)
    requires forall s :: s in byStep ==> IsAggregate(Group(records, StepKey, s), byStep[s])
    ensures Covers(items, records, Global)
  {
    var keys := Enumerate(byStep.Keys);
    items := [];
    for i := 0 to |keys|
      invariant |items| == i
      invariant forall j :: 0 <= j < i ==> items[j].key == keys[j] && IsCounter(records, Global, items[j])
    {
      assert keys[i] in byStep;
      var item := byStep[keys[i]];
      items := items + [Counter(keys[i], item.count, |item.epics.value|, item.status, item.text, item.sample)];
    }
    forall s | Group(records, StepKey, s) != [] ensures CounterOf(records, s, Global) in items {
      GroupElements(records, StepKey, s);
      assert s in keys;
      var j :| 0 <= j < |keys| && keys[j] == s;
      assert items[j] in items;
    }
  }

  /** The rows are the beginning of the full ranking. */
  ghost predicate IsTopTable(records: seq<Record>, rows: seq<Counter>) {
    exists items :: IsRanking(items, records, Global) && rows == Top(items)
  }

  function Top(items: seq<Counter>): seq<Counter> {
    if |items| > TOP then items[..TOP] else items
  }

  method TopTable(records: seq<Record>) returns (rows: seq<Counter>)
    ensures IsTopTable(records, rows)
  {
    var byStep := CountByStep(records);
    var items := ListCounters(records, byStep);
    var sorted := SortCounters(items);
    CoversPermutation(items, sorted, records, Global);
    assert IsRanking(sorted, records, Global);
    rows := sorted;
    if |rows| > TOP {
      rows := rows[..TOP];
    }
  }

  lemma TopTableExists(records: seq<Record>) returns (rows: seq<Counter>)
    ensures IsTopTable(records, rows)
  {
    var items := RankingExists(records, Global);
    rows := Top(items);
  }

  // ----- what the table promises -----

  /** The table is determined by the multiset of records, samples excepted. */
  lemma TopTablesAgree(xs: seq<Record>, ys: seq<Record>, a: seq<Counter>, b: seq<Counter>)
    requires multiset(xs) == multiset(ys) && Parsed(xs)
    requires IsTopTable(xs, a) && IsTopTable(ys, b)
    ensures HideAll(a) == HideAll(b)
  {
    var i :| IsRanking(i, xs, Global) && a == Top(i);
    var j :| IsRanking(j, ys, Global) && b == Top(j);
    RankingsAgree(xs, ys, i, j, Global);
    assert |HideAll(i)| == |HideAll(j)|;
    forall k | 0 <= k < |a| ensures HideAll(a)[k] == HideAll(b)[k] {
      assert HideAll(a)[k] == HideAll(i)[k] == HideAll(j)[k];
    }
  }

  lemma RankingSize(items: seq<Counter>, records: seq<Record>, scope: Scope)
    requires IsRanking(items, records, scope)
    ensures |items| == |KeySet(records, StepKey)|
  {
    var keys := seq(|items|, i requires 0 <= i < |items| => items[i].key);
    forall i, j | 0 <= i < j < |keys| ensures keys[i] != keys[j] {
      RankingIsStrict(items, records, scope, i, j);
    }
    forall k | k in keys ensures k in KeySet(records, StepKey) {
      var i :| 0 <= i < |items| && items[i].key == k;
      assert items[i] in items;
      GroupElements(records, StepKey, k);
    }
    forall k | k in KeySet(records, StepKey) ensures k in keys {
      GroupElements(records, StepKey, k);
      var i :| 0 <= i < |items| && items[i] == CounterOf(records, k, scope);
      assert keys[i] == k;
    }
    DistinctCardinality(keys, KeySet(records, StepKey));
  }

  /**
    The table holds exactly min(40, number of distinct steps) rows, in strict order, each with the true
    counter of its step; every step left out is ordered after every row shown, so it occurs no more often.
   */
  lemma TopTableIsOptimal(records: seq<Record>, rows: seq<Counter>)
    requires IsTopTable(records, rows)
    ensures |rows| == var n := |KeySet(records, StepKey)|; if n < 40 then n else 40
    ensures Ascending(rows, CounterLess)
    ensures forall c :: c in rows ==> IsCounter(records, Global, c)
    ensures forall s, c :: Group(records, StepKey, s) != [] && CounterOf(records, s, Global) !in rows && c in rows ==>
              CounterLess(c, CounterOf(records, s, Global)) && |Group(records, StepKey, s)| <= c.count
  {
    var items :| IsRanking(items, records, Global) && rows == Top(items);
    RankingSize(items, records, Global);
    forall i, j | 0 <= i < j < |items| ensures CounterLess(items[i], items[j]) {
      RankingIsStrict(items, records, Global, i, j);
    }
    forall s, c | Group(records, StepKey, s) != [] && CounterOf(records, s, Global) !in rows && c in rows
      ensures CounterLess(c, CounterOf(records, s, Global))
    {
      var i :| 0 <= i < |rows| && rows[i] == c;
      var j :| 0 <= j < |items| && items[j] == CounterOf(records, s, Global);
      assert forall k :: 0 <= k < |rows| ==> rows[k] in rows;
    }
  }

  /** Counting two lists one after the other: counts add, epics unite, and the left sample wins if there is one. */
  lemma CounterConcat(xs: seq<Record>, ys: seq<Record>, step: string)
    ensures |Group(xs + ys, StepKey, step)| == |Group(xs, StepKey, step)| + |Group(ys, StepKey, step)|
    ensures KeySet(Group(xs + ys, StepKey, step), EpicOf)
            == KeySet(Group(xs, StepKey, step), EpicOf) + KeySet(Group(ys, StepKey, step), EpicOf)
    ensures Group(xs, StepKey, step) != [] ==>
              CounterOf(xs + ys, step, Local).(count := 0) == CounterOf(xs, step, Local).(count := 0)
    ensures Group(xs, StepKey, step) == [] && Group(ys, StepKey, step) != [] ==>
              CounterOf(xs + ys, step, Global) == CounterOf(ys, step, Global)
  {
    GroupConcat(xs, ys, StepKey, step);
    KeySetConcat(Group(xs, StepKey, step), Group(ys, StepKey, step));
  }

  lemma KeySetConcat(xs: seq<Record>, ys: seq<Record>)
    ensures KeySet(xs + ys, EpicOf) == KeySet(xs, EpicOf) + KeySet(ys, EpicOf)
  {
    forall e ensures e in KeySet(xs + ys, EpicOf) <==> e in KeySet(xs, EpicOf) + KeySet(ys, EpicOf) {
      GroupElements(xs + ys, EpicOf, e);
      GroupElements(xs, EpicOf, e);
      GroupElements(ys, EpicOf, e);
      GroupConcat(xs, ys, EpicOf, e);
    }
  }
}
