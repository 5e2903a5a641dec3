/**
  Composite keys, step counters and their ranking: what the step table and the details have in common.
 */
module Steps {
  import opened Grouping
  import opened Orders
  import opened GoText
  import opened LocationParser
  import opened RecordBuilder

  // ----- composite keys -----

  function JoinKey(a: string, b: string): string {
    a + [NUL] + b
  }

  function StepKey(r: Record): string {
    JoinKey(r.status, r.text)
  }

  function FeatureKey(r: Record): string {
    JoinKey(r.epic, r.feature)
  }

  function EpicOf(r: Record): string {
    r.epic
  }

  function StatusOf(r: Record): string {
    r.status
  }

  /** A NUL-free first half makes the joined key faithful, whatever the second half holds. */
  lemma JoinKeyInjective(a: string, b: string, c: string, d: string)
    requires NUL !in a && NUL !in c
    ensures JoinKey(a, b) == JoinKey(c, d) <==> a == c && b == d
  {
    if JoinKey(a, b) == JoinKey(c, d) {
      SplitFirst(a, NUL, b);
      SplitFirst(c, NUL, d);
      assert a == Split(JoinKey(a, b), NUL)[0] == c;
      assert b == JoinKey(a, b)[|a| + 1..] == d;
    }
  }

  /** Without that, two different features do collapse into one key. */
  lemma JoinKeyCollides()
    ensures JoinKey("a\0b", "c") == JoinKey("a", "b\0c")
  {
    assert JoinKey("a\0b", "c") == "a\0b\0c" == JoinKey("a", "b\0c");
  }

  /** Bytewise order of joined keys is lexicographic order of the pairs. */
  lemma {:induction false} JoinKeyOrder(a: string, b: string, c: string, d: string)
    requires NUL !in a && NUL !in c
    ensures Less(JoinKey(a, b), JoinKey(c, d)) <==> if a != c then Less(a, c) else Less(b, d)
  {
    var x, y := JoinKey(a, b), JoinKey(c, d);
    if a == "" || c == "" {
      assert a == "" ==> x[0] == NUL && x[1..] == b;
      assert c == "" ==> y[0] == NUL && y[1..] == d;
      assert a != "" ==> x[0] == a[0] && a[0] in a;
      assert c != "" ==> y[0] == c[0] && c[0] in c;
    } else {
      assert x[0] == a[0] && y[0] == c[0];
      assert x[1..] == JoinKey(a[1..], b) && y[1..] == JoinKey(c[1..], d);
      assert a == [a[0]] + a[1..] && c == [c[0]] + c[1..];
      if a[0] == c[0] {
        JoinKeyOrder(a[1..], b, c[1..], d);
      }
    }
  }

  /** Splitting a joined key gives its two halves back exactly if neither holds a NUL. */
  lemma SplitKeyIff(a: string, b: string)
    ensures |Split(JoinKey(a, b), NUL)| >= 2
    ensures var parts := Split(JoinKey(a, b), NUL);
      parts[0] == a && parts[1] == b <==> NUL !in a && NUL !in b
  {
    assert JoinKey(a, b)[|a|] == NUL;
    if NUL !in a {
      SplitFirst(a, NUL, b);
      if NUL !in b {
        SplitNone(b, NUL);
      }
    }
  }

  /** The record sort orders by the one string that strings the two keys of a record together. */
  lemma RecordLessIsKeyOrder(a: Record, b: Record)
    requires NUL !in a.epic && NUL !in a.feature && NUL !in a.status
    requires NUL !in b.epic && NUL !in b.feature && NUL !in b.status
    ensures RecordLess(a, b) <==> Less(JoinKey(FeatureKey(a), StepKey(a)), JoinKey(FeatureKey(b), StepKey(b)))
  {
    assert JoinKey(FeatureKey(a), StepKey(a)) == JoinKey(a.epic, JoinKey(a.feature, StepKey(a)));
    assert JoinKey(FeatureKey(b), StepKey(b)) == JoinKey(b.epic, JoinKey(b.feature, StepKey(b)));
    JoinKeyOrder(a.epic, JoinKey(a.feature, StepKey(a)), b.epic, JoinKey(b.feature, StepKey(b)));
    JoinKeyOrder(a.feature, StepKey(a), b.feature, StepKey(b));
    JoinKeyOrder(a.status, a.text, b.status, b.text);
  }

  /** The statuses that the parser produces. */
  ghost predicate Parsed(records: seq<Record>) {
    forall r :: r in records ==> IsStatus(r.status)
  }

  lemma StepKeyInjective(a: Record, b: Record)
    requires IsStatus(a.status) && IsStatus(b.status)
    ensures StepKey(a) == StepKey(b) <==> a.status == b.status && a.text == b.text
  {
    assert NUL !in PENDING && NUL !in UNDEFINED;
    JoinKeyInjective(a.status, a.text, b.status, b.text);
  }

  // ----- counters -----

  datatype Counter = Counter(key: string, count: nat, epics: nat, status: string, text: string, sample: string)

  predicate CounterLess(a: Counter, b: Counter) {
    if a.count != b.count then a.count > b.count
    else if a.status != b.status then Less(a.status, b.status)
    else Less(a.text, b.text)
  }

  lemma CounterLessTransitive(a: Counter, b: Counter, c: Counter)
    ensures CounterLess(a, b) && CounterLess(b, c) ==> CounterLess(a, c)
    ensures !CounterLess(a, b) && !CounterLess(b, c) ==> !CounterLess(a, c)
  {
    LessOrders(a.status, b.status, c.status);
    LessOrders(a.text, b.text, c.text);
  }

  lemma CounterLessTies(a: Counter, b: Counter)
    ensures Tied(CounterLess, a, b) <==> a.count == b.count && a.status == b.status && a.text == b.text
  {
    LessOrders(a.status, b.status, a.status);
    LessOrders(a.text, b.text, a.text);
  }

  /** The comparator is legal for every input; it ignores the key, the number of epics and the sample. */
  lemma CounterLessIsLegal()
    ensures StrictWeakOrder(CounterLess)
    ensures forall a: Counter, b: Counter :: Tied(CounterLess, a, b) <==>
              a.count == b.count && a.status == b.status && a.text == b.text
  {
    forall a: Counter, b: Counter
      ensures Tied(CounterLess, a, b) <==> a.count == b.count && a.status == b.status && a.text == b.text
    {
      CounterLessTies(a, b);
    }
    forall a: Counter ensures !CounterLess(a, a) {
      CounterLessTies(a, a);
    }
    forall a: Counter, b: Counter, c: Counter
      ensures CounterLess(a, b) && CounterLess(b, c) ==> CounterLess(a, c)
      ensures !CounterLess(a, b) && !CounterLess(b, c) ==> !CounterLess(a, c)
    {
      CounterLessTransitive(a, b, c);
    }
  }

  /** Most frequent first; equal counts in bytewise order of the step key. */
  lemma CounterLessIsKeyOrder(a: Counter, b: Counter)
    requires IsStatus(a.status) && a.key == JoinKey(a.status, a.text)
    requires IsStatus(b.status) && b.key == JoinKey(b.status, b.text)
    ensures CounterLess(a, b) <==> a.count > b.count || (a.count == b.count && Less(a.key, b.key))
  {
    assert NUL !in PENDING && NUL !in UNDEFINED;
    JoinKeyOrder(a.status, a.text, b.status, b.text);
  }

  /** How far a counter looks: across epics for the step table, within one feature for the details. */
  datatype Scope = Global | Local

  /** The counter of one step: its true multiplicity, its epics, and the sample of its first record. */
  ghost function CounterOf(records: seq<Record>, step: string, scope: Scope): Counter
    requires Group(records, StepKey, step) != []
  {
    var g := Group(records, StepKey, step);
    Counter(step, |g|, if scope.Global? then |KeySet(g, EpicOf)| else 0, g[0].status, g[0].text, g[0].sample)
  }

  ghost predicate IsCounter(records: seq<Record>, scope: Scope, c: Counter) {
    Group(records, StepKey, c.key) != [] && c == CounterOf(records, c.key, scope)
  }

  /** All counters of the records, each once, as the comparator orders them. */
  ghost predicate IsRanking(items: seq<Counter>, records: seq<Record>, scope: Scope) {
    && SortedBy(items, CounterLess)
    && Covers(items, records, scope)
  }

  ghost predicate Covers(items: seq<Counter>, records: seq<Record>, scope: Scope) {
    && Distinct(items)
    && (forall c :: c in items ==> IsCounter(records, scope, c))
    && (forall s :: Group(records, StepKey, s) != [] ==> CounterOf(records, s, scope) in items)
  }

  /** The in-place sort of a slice of counters. */
  method SortCounters(items: seq<Counter>) returns (sorted: seq<Counter>)
    ensures multiset(sorted) == multiset(items)
    ensures SortedBy(sorted, CounterLess)
  {
    CounterLessIsLegal();
    var a := new Counter[|items|](i requires 0 <= i < |items| => items[i]);
    assert a[..] == items;
    SortSlice(a, CounterLess);
    sorted := a[..];
  }

  lemma CoversPermutation(items: seq<Counter>, sorted: seq<Counter>, records: seq<Record>, scope: Scope)
    requires Covers(items, records, scope) && multiset(items) == multiset(sorted)
    ensures Covers(sorted, records, scope)
  {
    PermutationDistinct(items, sorted);
    PermutationMembers(items, sorted);
  }

  /** Every record list has a ranking. */
  lemma RankingExists(records: seq<Record>, scope: Scope) returns (items: seq<Counter>)
    ensures IsRanking(items, records, scope)
  {
    var keys := ListingExists(KeySet(records, StepKey));
    forall i | 0 <= i < |keys| ensures Group(records, StepKey, keys[i]) != [] {
      GroupElements(records, StepKey, keys[i]);
    }
    var raw := seq(|keys|, i requires 0 <= i < |keys| && Group(records, StepKey, keys[i]) != [] =>
      CounterOf(records, keys[i], scope));
    forall s | Group(records, StepKey, s) != [] ensures CounterOf(records, s, scope) in raw {
      GroupElements(records, StepKey, s);
      var i :| 0 <= i < |keys| && keys[i] == s;
      assert raw[i] == CounterOf(records, s, scope);
    }
    CounterLessIsLegal();
    items := SortedExists(raw, CounterLess);
    CoversPermutation(raw, items, records, scope);
  }

  // ----- what a counter says -----

  lemma CounterFirst(records: seq<Record>, step: string, scope: Scope)
    requires Group(records, StepKey, step) != []
    ensures var c, r := CounterOf(records, step, scope), Group(records, StepKey, step)[0];
      && r in records
      && c.status == r.status && c.text == r.text && c.sample == r.sample
      && step == JoinKey(c.status, c.text)
      && c.count > 0
  {
    GroupElements(records, StepKey, step);
    var r := Group(records, StepKey, step)[0];
    assert r in Group(records, StepKey, step);
  }

  /** Two counters of one list have different status and text, so the comparator never ties them. */
  lemma RankingIsStrict(items: seq<Counter>, records: seq<Record>, scope: Scope, i: nat, j: nat)
    requires IsRanking(items, records, scope)
    requires i < j < |items|
    ensures items[i].key != items[j].key
    ensures CounterLess(items[i], items[j])
  {
    assert items[i] in items && items[j] in items;
    CounterFirst(records, items[i].key, scope);
    CounterFirst(records, items[j].key, scope);
    CounterLessTies(items[i], items[j]);
  }

  function Hide(c: Counter): Counter {
    c.(sample := "")
  }

  function HideAll(items: seq<Counter>): seq<Counter> {
    seq(|items|, i requires 0 <= i < |items| => Hide(items[i]))
  }

  /** A counter does not depend on the order of the records, its sample excepted. */
  lemma CounterPermutation(xs: seq<Record>, ys: seq<Record>, step: string, scope: Scope)
    requires multiset(xs) == multiset(ys) && Parsed(xs)
    requires Group(xs, StepKey, step) != []
    ensures Group(ys, StepKey, step) != []
    ensures Hide(CounterOf(xs, step, scope)) == Hide(CounterOf(ys, step, scope))
  {
    GroupPermutation(xs, ys, StepKey, step);
    KeySetPermutation(Group(xs, StepKey, step), Group(ys, StepKey, step), EpicOf);
    PermutationMembers(xs, ys);
    GroupElements(xs, StepKey, step);
    GroupElements(ys, StepKey, step);
    var r, q := Group(xs, StepKey, step)[0], Group(ys, StepKey, step)[0];
    assert r in Group(xs, StepKey, step) && q in Group(ys, StepKey, step);
    StepKeyInjective(r, q);
  }

  lemma HiddenMembers(xs: seq<Record>, ys: seq<Record>, a: seq<Counter>, b: seq<Counter>, scope: Scope, x: Counter)
    requires multiset(xs) == multiset(ys) && Parsed(xs)
    requires Covers(a, xs, scope) && Covers(b, ys, scope)
    requires x in HideAll(a)
    ensures x in HideAll(b)
  {
    var i :| 0 <= i < |a| && HideAll(a)[i] == x;
    assert a[i] in a;
    CounterPermutation(xs, ys, a[i].key, scope);
    var c := CounterOf(ys, a[i].key, scope);
    assert c in b;
    var j :| 0 <= j < |b| && b[j] == c;
    assert HideAll(b)[j] == x;
  }

  lemma HiddenDistinct(items: seq<Counter>, records: seq<Record>, scope: Scope)
    requires IsRanking(items, records, scope)
    ensures Distinct(HideAll(items)) && SortedBy(HideAll(items), CounterLess)
  {
    forall i, j | 0 <= i < j < |items| ensures HideAll(items)[i] != HideAll(items)[j] {
      RankingIsStrict(items, records, scope, i, j);
    }
  }

  /**
    The ranking is determined by the multiset of records: two rankings, from any two orders of the records,
    any two visits of the map and any two runs of the unstable sort, agree position by position on
    everything but the sample.
   */
  lemma RankingsAgree(xs: seq<Record>, ys: seq<Record>, a: seq<Counter>, b: seq<Counter>, scope: Scope)
    requires multiset(xs) == multiset(ys) && Parsed(xs)
    requires IsRanking(a, xs, scope) && IsRanking(b, ys, scope)
    ensures HideAll(a) == HideAll(b)
  {
    var x, y := HideAll(a), HideAll(b);
    PermutationMembers(xs, ys);
    HiddenDistinct(a, xs, scope);
    HiddenDistinct(b, ys, scope);
    forall c ensures c in x <==> c in y {
      if c in x { HiddenMembers(xs, ys, a, b, scope, c); }
      if c in y { HiddenMembers(ys, xs, b, a, scope, c); }
    }
    DistinctPermutation(x, y);
    CounterLessIsLegal();
    SortedPermutationsTie(x, y, CounterLess);
    forall i | 0 <= i < |x| ensures x[i] == y[i] {
      assert Tied(CounterLess, x[i], y[i]);
      assert a[i] in a && b[i] in b;
      CounterFirst(xs, a[i].key, scope);
      CounterFirst(ys, b[i].key, scope);
      CounterPermutation(xs, ys, a[i].key, scope);
    }
  }
}
