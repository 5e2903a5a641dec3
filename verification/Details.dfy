/** The sections by epic and feature, each with its own step list. */
module Details {
  import opened Grouping
  import opened Orders
  import opened GoText
  import opened LocationParser
  import opened RecordBuilder
  import opened Steps
  import opened Summary

  const NO_COUNTER := Counter("", 0, 0, "", "", "")

  /** The step counter of a feature after one more record of that step. */
  function Tick(step: Counter, rec: Record): Counter {
    var named := if step.count == 0
                 then step.(key := StepKey(rec), status := rec.status, text := rec.text, sample := rec.sample)
                 else step;
    named.(count := named.count + 1)
  }

  lemma TickSnoc(g: seq<Record>, step: Counter, rec: Record)
    requires if Group(g, StepKey, StepKey(rec)) == [] then step == NO_COUNTER
             else step == CounterOf(g, StepKey(rec), Local)
    ensures Group(g + [rec], StepKey, StepKey(rec)) != []
    ensures Tick(step, rec) == CounterOf(g + [rec], StepKey(rec), Local)
  {
    GroupSnoc(g, rec, StepKey, StepKey(rec));
  }

  ghost predicate StepsDescribe(steps: map<string, Counter>, g: seq<Record>) {
    && steps.Keys == KeySet(g, StepKey)
    && forall s :: s in steps ==> IsCounter(g, Local, steps[s]) && steps[s].key == s
  }

  lemma StepsSnoc(steps: map<string, Counter>, g: seq<Record>, rec: Record)
    requires StepsDescribe(steps, g)
    ensures var before := if StepKey(rec) in steps then steps[StepKey(rec)] else NO_COUNTER;
      StepsDescribe(steps[StepKey(rec) := Tick(before, rec)], g + [rec])
  {
    var key := StepKey(rec);
    var step := if key in steps then steps[key] else NO_COUNTER;
    KeySetSnoc(g, rec, StepKey);
    GroupElements(g, StepKey, key);
    TickSnoc(g, step, rec);
    var next := steps[key := Tick(step, rec)];
    forall s | s in next ensures IsCounter(g + [rec], Local, next[s]) && next[s].key == s {
      GroupSnoc(g, rec, StepKey, s);
    }
  }

  /** What the program keeps per feature and updates through a pointer. */
  class FeatureSummary {
    var total: nat
    var undefined: nat
    var pending: nat
    var steps: map<string, Counter>

    /** The summary says of the records g what it is meant to say. */
    ghost predicate Describes(g: seq<Record>)
      reads this
    {
      && Tally(total, undefined, pending) == TallyOf(g)
      && StepsDescribe(steps, g)
    }

    constructor ()
      ensures Describes([])
    {
      total, undefined, pending := 0, 0, 0;
      steps := map[];
    }

    method Add(rec: Record, ghost g: seq<Record>)
      requires Describes(g)
      modifies this
      ensures Describes(g + [rec])
    {
      TallySnoc(g, rec);
      StepsSnoc(steps, g, rec);
      total := total + 1;
      if rec.status == UNDEFINED {
        undefined := undefined + 1;
      }
      if rec.status == PENDING {
        pending := pending + 1;
      }
      var stepKey := StepKey(rec);
      var step := if stepKey in steps then steps[stepKey] else NO_COUNTER;
      steps := steps[stepKey := Tick(step, rec)];
    }

    /** The step list of one section. */
    method ListSteps(ghost g: seq<Record>) returns (sorted: seq<Counter>)
      requires Describes(g)
      ensures IsRanking(sorted, g, Local)
    {
      var keys := Enumerate(steps.Keys);
      var items: seq<Counter> := [];
      for i := 0 to |keys|
        invariant |items| == i
        invariant forall j :: 0 <= j < i ==> items[j] == steps[keys[j]]
      {
        assert keys[i] in steps;
        items := items + [steps[keys[i]]];
      }
      forall s | Group(g, StepKey, s) != [] ensures CounterOf(g, s, Local) in items {
        GroupElements(g, StepKey, s);
        var j :| 0 <= j < |keys| && keys[j] == s;
        assert items[j] in items;
      }
      sorted := SortCounters(items);
      CoversPermutation(items, sorted, g, Local);
    }
  }

  /** One heading with its step list; `key` is the map key it was printed for. */
  datatype Section = Section(key: string, epic: string, feature: string, tally: Tally, steps: seq<Counter>)

  ghost predicate IsSection(records: seq<Record>, sec: Section) {
    var g, parts := Group(records, FeatureKey, sec.key), Split(sec.key, NUL);
    && |parts| >= 2 && sec.epic == parts[0] && sec.feature == parts[1]
    && sec.tally == TallyOf(g)
    && IsRanking(sec.steps, g, Local)
  }

  function Keys(sections: seq<Section>): seq<string> {
    seq(|sections|, i requires 0 <= i < |sections| => sections[i].key)
  }

  ghost predicate IsDetails(records: seq<Record>, sections: seq<Section>) {
    && Ascending(Keys(sections), Less)
    && Enumerates(Keys(sections), KeySet(records, FeatureKey))
    && forall i :: 0 <= i < |sections| ==> IsSection(records, sections[i])
  }

  ghost predicate Unshared(byFeature: map<string, FeatureSummary>) {
    forall k, l :: k in byFeature && l in byFeature && k != l ==> byFeature[k] != byFeature[l]
  }

  /** Each feature seen has its own object, not shared with another, and it describes that feature's records. */
  ghost predicate Tracks(byFeature: map<string, FeatureSummary>, seen: seq<Record>)
    reads byFeature.Values
  {
    && byFeature.Keys == KeySet(seen, FeatureKey)
    && Unshared(byFeature)
    && (forall k :: k in byFeature ==> byFeature[k].Describes(Group(seen, FeatureKey, k)))
  }

  lemma FeatureSnoc(seen: seq<Record>, rec: Record)
    ensures KeySet(seen + [rec], FeatureKey) == KeySet(seen, FeatureKey) + {FeatureKey(rec)}
    ensures FeatureKey(rec) !in KeySet(seen, FeatureKey) ==> Group(seen, FeatureKey, FeatureKey(rec)) == []
    ensures Group(seen + [rec], FeatureKey, FeatureKey(rec)) == Group(seen, FeatureKey, FeatureKey(rec)) + [rec]
    ensures forall k :: k != FeatureKey(rec) ==> Group(seen + [rec], FeatureKey, k) == Group(seen, FeatureKey, k)
  {
    KeySetSnoc(seen, rec, FeatureKey);
    GroupElements(seen, FeatureKey, FeatureKey(rec));
    forall k ensures Group(seen + [rec], FeatureKey, k)
                     == Group(seen, FeatureKey, k) + if FeatureKey(rec) == k then [rec] else [] {
      GroupSnoc(seen, rec, FeatureKey, k);
    }
  }

  /** The object of a feature, new if the feature is new. */
  method ObjectFor(byFeature: map<string, FeatureSummary>, key: string, ghost seen: seq<Record>)
    returns (next: map<string, FeatureSummary>)
    requires Tracks(byFeature, seen)
    requires key !in KeySet(seen, FeatureKey) ==> Group(seen, FeatureKey, key) == []
    ensures next.Keys == KeySet(seen, FeatureKey) + {key}
    ensures Unshared(next)
    ensures forall k :: k in next ==> next[k].Describes(Group(seen, FeatureKey, k))
    ensures fresh(next.Values - byFeature.Values)
  {
    next := byFeature;
    if key !in byFeature {
      var item := new FeatureSummary();
      next := byFeature[key := item];
    }
  }

  method AddRecord(byFeature: map<string, FeatureSummary>, rec: Record, ghost seen: seq<Record>)
    returns (next: map<string, FeatureSummary>)
    requires Tracks(byFeature, seen)
    modifies byFeature.Values
    ensures Tracks(next, seen + [rec])
    ensures fresh(next.Values - byFeature.Values)
  {
    var key := FeatureKey(rec);
    FeatureSnoc(seen, rec);
    next := ObjectFor(byFeature, key, seen);
    next[key].Add(rec, Group(seen, FeatureKey, key));
  }

  method CountByFeature(records: seq<Record>) returns (byFeature: map<string, FeatureSummary>)
    ensures Tracks(byFeature, records)
    ensures fresh(byFeature.Values)
  {
    byFeature := map[];
    for i := 0 to |records|
      invariant Tracks(byFeature, records[..i])
      invariant fresh(byFeature.Values)
    {
      assert records[..i + 1] == records[..i] + [records[i]];
      byFeature := AddRecord(byFeature, records[i], records[..i]);
    }
    assert records[..|records|] == records;
  }

  lemma FeatureKeyParts(records: seq<Record>, key: string)
    requires key in KeySet(records, FeatureKey)
    ensures |Split(key, NUL)| >= 2
  {
    var i :| 0 <= i < |records| && FeatureKey(records[i]) == key;
    SplitKeyIff(records[i].epic, records[i].feature);
  }

  method ListDetails(records: seq<Record>) returns (sections: seq<Section>)
    ensures IsDetails(records, sections)
  {
    var byFeature := CountByFeature(records);
    var keys := SortedKeys(byFeature.Keys);
    sections := [];
    for i := 0 to |keys|
      invariant |sections| == i
      invariant forall j :: 0 <= j < i ==> sections[j].key == keys[j] && IsSection(records, sections[j])
      invariant Tracks(byFeature, records)
    {
      var key := keys[i];
      assert key in byFeature;
      FeatureKeyParts(records, key);
      var parts := Split(key, NUL);
      var item := byFeature[key];
      var steps := item.ListSteps(Group(records, FeatureKey, key));
      sections := sections + [Section(key, parts[0], parts[1], Tally(item.total, item.undefined, item.pending), steps)];
    }
    assert Keys(sections) == keys;
  }

  lemma SectionExists(records: seq<Record>, key: string) returns (sec: Section)
    requires key in KeySet(records, FeatureKey)
    ensures sec.key == key && IsSection(records, sec)
  {
    FeatureKeyParts(records, key);
    var parts, g := Split(key, NUL), Group(records, FeatureKey, key);
    var steps := RankingExists(g, Local);
    sec := Section(key, parts[0], parts[1], TallyOf(g), steps);
  }

  lemma {:induction false} SectionsExist(records: seq<Record>, keys: seq<string>) returns (sections: seq<Section>)
    requires forall k :: k in keys ==> k in KeySet(records, FeatureKey)
    ensures Keys(sections) == keys
    ensures forall i :: 0 <= i < |sections| ==> IsSection(records, sections[i])
  {
    if keys == [] {
      sections := [];
    } else {
      var last := keys[|keys| - 1];
      var more := SectionsExist(records, keys[..|keys| - 1]);
      assert last in keys;
      var sec := SectionExists(records, last);
      sections := more + [sec];
      assert Keys(sections) == Keys(more) + [last];
    }
  }

  lemma DetailsExist(records: seq<Record>) returns (sections: seq<Section>)
    ensures IsDetails(records, sections)
  {
    var keys := AscendingExists(KeySet(records, FeatureKey));
    sections := SectionsExist(records, keys);
  }

  function HideSection(sec: Section): Section {
    sec.(steps := HideAll(sec.steps))
  }

  function HideSections(sections: seq<Section>): seq<Section> {
    seq(|sections|, i requires 0 <= i < |sections| => HideSection(sections[i]))
  }

  /** The details are determined by the multiset of records, samples excepted. */
  lemma DetailsAgree(xs: seq<Record>, ys: seq<Record>, a: seq<Section>, b: seq<Section>)
    requires multiset(xs) == multiset(ys) && Parsed(xs)
    requires IsDetails(xs, a) && IsDetails(ys, b)
    ensures HideSections(a) == HideSections(b)
  {
    KeySetPermutation(xs, ys, FeatureKey);
    AscendingUnique(Keys(a), Keys(b), KeySet(xs, FeatureKey));
    assert |a| == |Keys(a)| == |b|;
    forall i | 0 <= i < |a| ensures HideSection(a[i]) == HideSection(b[i]) {
      assert Keys(a)[i] == Keys(b)[i];
      var k := a[i].key;
      var g, h := Group(xs, FeatureKey, k), Group(ys, FeatureKey, k);
      GroupPermutation(xs, ys, FeatureKey, k);
      TallyPermutation(g, h);
      GroupElements(xs, FeatureKey, k);
      RankingsAgree(g, h, a[i].steps, b[i].steps, Local);
    }
  }
}
