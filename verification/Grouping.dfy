/**
  Group-by over sequences: the one notion behind every counter map of the inventory.
  `Group(xs, key, k)` is what a loop that files each element under `key(x)` has filed under `k`.
 */
module Grouping {

  datatype Option<+T> = None | Some(value: T)

  /** The elements of xs whose key is k, in their order in xs. */
  function Group<T, K(==)>(xs: seq<T>, key: T -> K, k: K): seq<T> {
    if xs == [] then []
    else
      var rest := Group(xs[..|xs| - 1], key, k);
      if key(xs[|xs| - 1]) == k then rest + [xs[|xs| - 1]] else rest
  }

  /** The keys that occur in xs. */
  function KeySet<T, K(==)>(xs: seq<T>, key: T -> K): set<K> {
    set i | 0 <= i < |xs| :: key(xs[i])
  }

  /** The groups of the given keys, one after the other. */
  function FlattenGroups<T, K(==)>(xs: seq<T>, key: T -> K, keys: seq<K>): seq<T> {
    if keys == [] then []
    else FlattenGroups(xs, key, keys[..|keys| - 1]) + Group(xs, key, keys[|keys| - 1])
  }

  /** The defined images of the elements of xs, in order. */
  function Collect<A, B>(xs: seq<A>, f: A -> Option<B>): seq<B> {
    if xs == [] then []
    else
      var rest := Collect(xs[..|xs| - 1], f);
      match f(xs[|xs| - 1])
      case None => rest
      case Some(b) => rest + [b]
  }

  function SumBy<T>(xs: seq<T>, f: T -> nat): nat {
    if xs == [] then 0 else SumBy(xs[..|xs| - 1], f) + f(xs[|xs| - 1])
  }

  ghost predicate Distinct<T>(xs: seq<T>) {
    forall i, j :: 0 <= i < j < |xs| ==> xs[i] != xs[j]
  }

  /** keys lists every key of xs, each once: one possible iteration order of a map keyed by `key`. */
  ghost predicate Enumerates<K>(keys: seq<K>, all: set<K>) {
    Distinct(keys) && (forall k :: k in all ==> k in keys) && (forall k :: k in keys ==> k in all)
  }

  /** `for k := range m`: every key once, in an order nobody promises. */
  method Enumerate<K(==)>(all: set<K>) returns (keys: seq<K>)
    ensures Enumerates(keys, all)
  {
    keys := [];
    var rest := all;
    while rest != {}
      invariant Distinct(keys)
      invariant forall k :: k in all ==> k in keys || k in rest
      invariant forall k :: k in keys ==> k in all && k !in rest
      invariant rest <= all
      decreases |rest|
    {
      var k :| k in rest;
      keys := keys + [k];
      rest := rest - {k};
    }
  }

  /** Every finite set can be listed. */
  lemma ListingExists<K>(all: set<K>) returns (keys: seq<K>)
    ensures Enumerates(keys, all)
  {
    if all == {} {
      keys := [];
    } else {
      var k :| k in all;
      var rest := ListingExists(all - {k});
      keys := rest + [k];
    }
  }

  lemma SameMultiset<T>(a: multiset<T>, b: multiset<T>)
    requires forall x :: a[x] == b[x]
    ensures a == b
  {
  }

  lemma SameSet<T>(a: set<T>, b: set<T>)
    requires forall x :: x in a <==> x in b
    ensures a == b
  {
  }

  // ----- one step of a grouping loop -----

  lemma GroupSnoc<T, K>(xs: seq<T>, x: T, key: T -> K, k: K)
    ensures Group(xs + [x], key, k) == if key(x) == k then Group(xs, key, k) + [x] else Group(xs, key, k)
  {
    assert (xs + [x])[..|xs|] == xs;
  }

  lemma KeySetSnoc<T, K>(xs: seq<T>, x: T, key: T -> K)
    ensures KeySet(xs + [x], key) == KeySet(xs, key) + {key(x)}
  {
    var ys := xs + [x];
    forall k ensures k in KeySet(ys, key) <==> k in KeySet(xs, key) + {key(x)} {
      if k in KeySet(xs, key) {
        var i :| 0 <= i < |xs| && key(xs[i]) == k;
        assert key(ys[i]) == k;
      }
      assert key(ys[|xs|]) == key(x);
    }
    SameSet(KeySet(ys, key), KeySet(xs, key) + {key(x)});
  }

  lemma CollectSnoc<A, B>(xs: seq<A>, x: A, f: A -> Option<B>)
    ensures Collect(xs + [x], f) == Collect(xs, f) + if f(x).Some? then [f(x).value] else []
  {
    assert (xs + [x])[..|xs|] == xs;
  }

  lemma SumBySnoc<T>(xs: seq<T>, x: T, f: T -> nat)
    ensures SumBy(xs + [x], f) == SumBy(xs, f) + f(x)
  {
    assert (xs + [x])[..|xs|] == xs;
  }

  // ----- what a group holds -----

  lemma {:induction false} GroupElements<T, K>(xs: seq<T>, key: T -> K, k: K)
    ensures forall x :: x in Group(xs, key, k) <==> x in xs && key(x) == k
    ensures Group(xs, key, k) != [] <==> k in KeySet(xs, key)
  {
    if xs == [] {
    } else {
      var front, last := xs[..|xs| - 1], xs[|xs| - 1];
      assert xs == front + [last];
      GroupElements(front, key, k);
      KeySetSnoc(front, last, key);
    }
  }

  lemma KeySetMember<T, K>(xs: seq<T>, key: T -> K, x: T)
    requires x in xs
    ensures key(x) in KeySet(xs, key)
  {
    var i :| 0 <= i < |xs| && xs[i] == x;
    assert key(xs[i]) == key(x);
  }

  lemma {:induction false} GroupConcat<T, K>(xs: seq<T>, ys: seq<T>, key: T -> K, k: K)
    ensures Group(xs + ys, key, k) == Group(xs, key, k) + Group(ys, key, k)
  {
    if ys == [] {
      assert xs + ys == xs;
    } else {
      var front, last := ys[..|ys| - 1], ys[|ys| - 1];
      assert ys == front + [last];
      assert xs + ys == (xs + front) + [last];
      GroupConcat(xs, front, key, k);
      GroupSnoc(xs + front, last, key, k);
      GroupSnoc(front, last, key, k);
    }
  }

  /** Grouping by f and then by g is grouping by g and then by f. */
  lemma {:induction false} GroupCommute<T, K, L>(xs: seq<T>, f: T -> K, a: K, g: T -> L, b: L)
    ensures Group(Group(xs, f, a), g, b) == Group(Group(xs, g, b), f, a)
  {
    if xs == [] {
    } else {
      var front, last := xs[..|xs| - 1], xs[|xs| - 1];
      GroupCommute(front, f, a, g, b);
      GroupSnoc(Group(front, f, a), last, g, b);
      GroupSnoc(Group(front, g, b), last, f, a);
    }
  }

  /** A group by a key that is constant on xs is all or nothing. */
  lemma {:induction false} GroupConstant<T, K>(xs: seq<T>, key: T -> K, k: K, c: K)
    requires forall x :: x in xs ==> key(x) == c
    ensures Group(xs, key, k) == if k == c then xs else []
  {
    if xs == [] {
    } else {
      var front, last := xs[..|xs| - 1], xs[|xs| - 1];
      assert xs == front + [last];
      GroupConstant(front, key, k, c);
    }
  }

  lemma {:induction false} GroupHead<T, K>(xs: seq<T>, key: T -> K)
    requires xs != []
    ensures Group(xs, key, key(xs[0])) != [] && Group(xs, key, key(xs[0]))[0] == xs[0]
  {
    if |xs| == 1 {
    } else {
      GroupHead(xs[..|xs| - 1], key);
    }
  }

  /** Two keys at once. */
  function Pair<T, K, L>(f: T -> K, g: T -> L): T -> (K, L) {
    x => (f(x), g(x))
  }

  /** A group of a group is the group of both keys. */
  lemma {:induction false} GroupTwice<T, K, L>(xs: seq<T>, f: T -> K, a: K, g: T -> L, b: L)
    ensures Group(Group(xs, f, a), g, b) == Group(xs, Pair(f, g), (a, b))
  {
    if xs == [] {
    } else {
      var front, last := xs[..|xs| - 1], xs[|xs| - 1];
      GroupTwice(front, f, a, g, b);
      GroupSnoc(Group(front, f, a), last, g, b);
    }
  }

  /** The first element of a group is the first element with that key. */
  lemma {:induction false} GroupFirst<T, K>(xs: seq<T>, key: T -> K, i: nat)
    requires i < |xs|
    requires forall n :: 0 <= n < i ==> key(xs[n]) != key(xs[i])
    ensures Group(xs, key, key(xs[i])) != [] && Group(xs, key, key(xs[i]))[0] == xs[i]
  {
    var front := xs[..|xs| - 1];
    if i == |xs| - 1 {
      GroupAbsent(front, key, key(xs[i]));
    } else {
      GroupFirst(front, key, i);
    }
  }

  lemma FirstIndex<T, K>(xs: seq<T>, key: T -> K, k: K) returns (i: nat)
    requires Group(xs, key, k) != []
    ensures i < |xs| && key(xs[i]) == k && xs[i] == Group(xs, key, k)[0]
    ensures forall n :: 0 <= n < i ==> key(xs[n]) != k
  {
    GroupElements(xs, key, k);
    var m :| 0 <= m < |xs| && key(xs[m]) == k;
    i := 0;
    while key(xs[i]) != k
      invariant 0 <= i <= m
      invariant forall n :: 0 <= n < i ==> key(xs[n]) != k
      decreases m - i
    {
      i := i + 1;
    }
    GroupFirst(xs, key, i);
  }

  /** Exchanging the first element of a group with a later one puts that one first. */
  lemma GroupFirstSwapped<T, K>(xs: seq<T>, key: T -> K, i: nat, j: nat)
    requires i < j < |xs| && key(xs[i]) == key(xs[j])
    requires forall n :: 0 <= n < i ==> key(xs[n]) != key(xs[i])
    ensures var g := Group(xs[i := xs[j]][j := xs[i]], key, key(xs[i])); g != [] && g[0] == xs[j]
  {
    GroupFirst(xs[i := xs[j]][j := xs[i]], key, i);
  }

  lemma {:induction false} GroupAbsent<T, K>(xs: seq<T>, key: T -> K, k: K)
    requires forall x :: x in xs ==> key(x) != k
    ensures Group(xs, key, k) == []
  {
    if xs == [] {
    } else {
      GroupAbsent(xs[..|xs| - 1], key, k);
    }
  }

  // ----- groups partition the sequence -----

  lemma {:induction false} GroupMultiplicity<T, K>(xs: seq<T>, key: T -> K, k: K, x: T)
    ensures multiset(Group(xs, key, k))[x] == if key(x) == k then multiset(xs)[x] else 0
  {
    if xs == [] {
    } else {
      assert xs == xs[..|xs| - 1] + [xs[|xs| - 1]];
      GroupMultiplicity(xs[..|xs| - 1], key, k, x);
    }
  }

  lemma GroupPermutation<T, K>(xs: seq<T>, ys: seq<T>, key: T -> K, k: K)
    requires multiset(xs) == multiset(ys)
    ensures multiset(Group(xs, key, k)) == multiset(Group(ys, key, k))
    ensures |Group(xs, key, k)| == |Group(ys, key, k)|
  {
    forall x ensures multiset(Group(xs, key, k))[x] == multiset(Group(ys, key, k))[x] {
      GroupMultiplicity(xs, key, k, x);
      GroupMultiplicity(ys, key, k, x);
    }
    SameMultiset(multiset(Group(xs, key, k)), multiset(Group(ys, key, k)));
    PermutationLength(Group(xs, key, k), Group(ys, key, k));
  }

  lemma PermutationLength<T>(xs: seq<T>, ys: seq<T>)
    requires multiset(xs) == multiset(ys)
    ensures |xs| == |ys|
  {
    assert |multiset(xs)| == |xs|;
    assert |multiset(ys)| == |ys|;
  }

  lemma PermutationMembers<T>(xs: seq<T>, ys: seq<T>)
    requires multiset(xs) == multiset(ys)
    ensures forall x :: x in xs <==> x in ys
  {
    forall x ensures x in xs <==> x in ys {
      assert x in xs <==> x in multiset(xs);
      assert x in ys <==> x in multiset(ys);
    }
  }

  lemma KeySetPermutation<T, K>(xs: seq<T>, ys: seq<T>, key: T -> K)
    requires multiset(xs) == multiset(ys)
    ensures KeySet(xs, key) == KeySet(ys, key)
  {
    PermutationMembers(xs, ys);
    forall k ensures k in KeySet(xs, key) <==> k in KeySet(ys, key) {
      GroupElements(xs, key, k);
      GroupElements(ys, key, k);
      GroupPermutation(xs, ys, key, k);
    }
    SameSet(KeySet(xs, key), KeySet(ys, key));
  }

  lemma {:induction false} FlattenMultiplicity<T, K>(xs: seq<T>, key: T -> K, keys: seq<K>, x: T)
    requires Distinct(keys)
    ensures multiset(FlattenGroups(xs, key, keys))[x] == if key(x) in keys then multiset(xs)[x] else 0
  {
    if keys == [] {
    } else {
      var front, last := keys[..|keys| - 1], keys[|keys| - 1];
      assert keys == front + [last];
      FlattenMultiplicity(xs, key, front, x);
      GroupMultiplicity(xs, key, last, x);
    }
  }

  /** Visiting the groups in any order loses no element and repeats none. */
  lemma PartitionPermutation<T, K>(xs: seq<T>, key: T -> K, keys: seq<K>)
    requires Enumerates(keys, KeySet(xs, key))
    ensures multiset(FlattenGroups(xs, key, keys)) == multiset(xs)
  {
    forall x ensures multiset(FlattenGroups(xs, key, keys))[x] == multiset(xs)[x] {
      FlattenMultiplicity(xs, key, keys, x);
      if x in xs {
        KeySetMember(xs, key, x);
      }
    }
    SameMultiset(multiset(FlattenGroups(xs, key, keys)), multiset(xs));
  }

  /** The group sizes add up to the whole, provided the keys listed cover it. */
  lemma PartitionSum<T, K>(xs: seq<T>, key: T -> K, keys: seq<K>, size: K -> nat)
    requires Distinct(keys)
    requires forall x :: x in xs ==> key(x) in keys
    requires forall k :: k in keys ==> size(k) == |Group(xs, key, k)|
    ensures SumBy(keys, size) == |xs|
  {
    forall x ensures multiset(FlattenGroups(xs, key, keys))[x] == multiset(xs)[x] {
      FlattenMultiplicity(xs, key, keys, x);
    }
    SameMultiset(multiset(FlattenGroups(xs, key, keys)), multiset(xs));
    PermutationLength(FlattenGroups(xs, key, keys), xs);
    FlattenLength(xs, key, keys, size);
  }

  lemma {:induction false} FlattenLength<T, K>(xs: seq<T>, key: T -> K, keys: seq<K>, size: K -> nat)
    requires forall k :: k in keys ==> size(k) == |Group(xs, key, k)|
    ensures |FlattenGroups(xs, key, keys)| == SumBy(keys, size)
  {
    if keys == [] {
    } else {
      FlattenLength(xs, key, keys[..|keys| - 1], size);
    }
  }

  /** Sums over rows are sums over the rows' keys. */
  lemma {:induction false} SumByKeys<T, K>(rows: seq<T>, f: T -> nat, keys: seq<K>, g: K -> nat)
    requires |rows| == |keys|
    requires forall i :: 0 <= i < |rows| ==> f(rows[i]) == g(keys[i])
    ensures SumBy(rows, f) == SumBy(keys, g)
  {
    if rows == [] {
    } else {
      SumByKeys(rows[..|rows| - 1], f, keys[..|keys| - 1], g);
    }
  }

  ghost predicate IsInjectiveOn<A, B>(f: A -> B, all: set<A>) {
    forall x, y :: x in all && y in all && f(x) == f(y) ==> x == y
  }

  /** An image is as large as the set exactly if no two elements are sent to the same value. */
  lemma {:induction false} ImageSize<A, B>(all: set<A>, f: A -> B, image: set<B>)
    requires forall x :: x in all ==> f(x) in image
    requires forall y :: y in image ==> exists x :: x in all && f(x) == y
    ensures |image| <= |all|
    ensures |image| == |all| <==> IsInjectiveOn(f, all)
    decreases |all|
  {
    if all == {} {
      assert image == {};
    } else {
      var x :| x in all;
      var rest := all - {x};
      if y :| y in rest && f(y) == f(x) {
        ImageSize(rest, f, image);
      } else {
        ImageSize(rest, f, image - {f(x)});
      }
    }
  }

  // ----- counting positions -----

  /** The positions of xs at which p holds. */
  ghost function Hits<T>(xs: seq<T>, p: T -> bool): set<int> {
    set i | 0 <= i < |xs| && p(xs[i])
  }

  ghost function CountOf<T>(xs: seq<T>, p: T -> bool): nat {
    |Hits(xs, p)|
  }

  lemma CountSnoc<T>(xs: seq<T>, x: T, p: T -> bool)
    ensures CountOf(xs + [x], p) == CountOf(xs, p) + if p(x) then 1 else 0
  {
    assert Hits(xs + [x], p) == Hits(xs, p) + if p(x) then {|xs|} else {};
  }

  lemma {:induction false} GroupCount<T>(xs: seq<T>, p: T -> bool)
    ensures |Group(xs, p, true)| == CountOf(xs, p)
  {
    if xs == [] {
      assert Hits(xs, p) == {};
    } else {
      var front, last := xs[..|xs| - 1], xs[|xs| - 1];
      assert xs == front + [last];
      GroupCount(front, p);
      CountSnoc(front, last, p);
    }
  }

  /** Counting among the collected is counting among those they come from. */
  lemma {:induction false} CollectedCount<A, B>(xs: seq<A>, f: A -> Option<B>, q: B -> bool, p: A -> bool)
    requires forall x :: x in xs ==> (p(x) <==> f(x).Some? && q(f(x).value))
    ensures CountOf(Collect(xs, f), q) == CountOf(xs, p)
  {
    if xs == [] {
      assert Hits(xs, p) == {} && Hits(Collect(xs, f), q) == {};
    } else {
      var front, last := xs[..|xs| - 1], xs[|xs| - 1];
      assert xs == front + [last];
      CollectedCount(front, f, q, p);
      CountSnoc(front, last, p);
      CollectSnoc(front, last, f);
      if f(last).Some? {
        CountSnoc(Collect(front, f), f(last).value, q);
      }
    }
  }

  lemma CountPermutation<T>(xs: seq<T>, ys: seq<T>, p: T -> bool)
    requires multiset(xs) == multiset(ys)
    ensures CountOf(xs, p) == CountOf(ys, p)
  {
    GroupPermutation(xs, ys, p, true);
    GroupCount(xs, p);
    GroupCount(ys, p);
  }

  /** A group is a matter of which elements have the key. */
  lemma {:induction false} GroupIsFilter<T, K>(xs: seq<T>, key: T -> K, k: K, p: T -> bool)
    requires forall x :: x in xs ==> (key(x) == k <==> p(x))
    ensures Group(xs, key, k) == Group(xs, p, true)
    ensures |Group(xs, key, k)| == CountOf(xs, p)
  {
    if xs == [] {
      GroupCount(xs, p);
    } else {
      var front, last := xs[..|xs| - 1], xs[|xs| - 1];
      assert xs == front + [last];
      GroupIsFilter(front, key, k, p);
      GroupCount(xs, p);
    }
  }

  lemma {:induction false} CountIsMultiplicity<T>(xs: seq<T>, x: T, p: T -> bool)
    requires forall y :: y in xs ==> (p(y) <==> y == x)
    ensures CountOf(xs, p) == multiset(xs)[x]
  {
    if xs == [] {
      assert Hits(xs, p) == {};
    } else {
      var front, last := xs[..|xs| - 1], xs[|xs| - 1];
      assert xs == front + [last];
      CountIsMultiplicity(front, x, p);
      CountSnoc(front, last, p);
    }
  }

  lemma CountAll<T>(xs: seq<T>, p: T -> bool)
    requires forall x :: x in xs ==> p(x)
    ensures CountOf(xs, p) == |xs|
  {
    GroupConstant(xs, p, true, true);
    GroupCount(xs, p);
  }

  // ----- permutations -----

  lemma {:induction false} CollectConcat<A, B>(xs: seq<A>, ys: seq<A>, f: A -> Option<B>)
    ensures Collect(xs + ys, f) == Collect(xs, f) + Collect(ys, f)
  {
    if ys == [] {
      assert xs + ys == xs;
    } else {
      var front, last := ys[..|ys| - 1], ys[|ys| - 1];
      assert ys == front + [last];
      assert xs + ys == (xs + front) + [last];
      CollectConcat(xs, front, f);
      CollectSnoc(xs + front, last, f);
      CollectSnoc(front, last, f);
    }
  }

  lemma SwapTail<T>(a: seq<T>, b: seq<T>, c: seq<T>)
    ensures multiset(a + b + c) == multiset(a + c + b)
  {
    assert multiset(a + b + c) == multiset(a) + multiset(b) + multiset(c);
  }

  lemma CollectThree<A, B>(a: seq<A>, b: seq<A>, c: seq<A>, f: A -> Option<B>)
    ensures Collect(a + b + c, f) == Collect(a, f) + Collect(b, f) + Collect(c, f)
  {
    CollectConcat(a + b, c, f);
    CollectConcat(a, b, f);
  }

  lemma CollectTakeOut<A, B>(before: seq<A>, single: seq<A>, after: seq<A>, f: A -> Option<B>)
    ensures multiset(Collect(before + single + after, f)) == multiset(Collect(before + after + single, f))
  {
    CollectThree(before, single, after, f);
    CollectThree(before, after, single, f);
    SwapTail(Collect(before, f), Collect(single, f), Collect(after, f));
  }

  /** A permutation of front and x holds x somewhere, and the rest is a permutation of front. */
  lemma TakeOut<T>(ys: seq<T>, front: seq<T>, x: T) returns (i: nat, others: seq<T>)
    requires multiset(front + [x]) == multiset(ys)
    ensures i < |ys| && ys == ys[..i] + [x] + ys[i + 1..]
    ensures others == ys[..i] + ys[i + 1..] && multiset(others) == multiset(front)
  {
    PermutationMembers(front + [x], ys);
    assert x in front + [x] by { assert x == (front + [x])[|front|]; }
    assert x in ys;
    i :| 0 <= i < |ys| && ys[i] == x;
    others := ys[..i] + ys[i + 1..];
    assert ys == ys[..i] + [x] + ys[i + 1..];
    assert multiset(front) == multiset(front + [x]) - multiset{x};
    assert multiset(others) == multiset(ys) - multiset{x};
  }

  /** Collecting commutes with permuting. */
  lemma {:induction false} CollectPermutation<A, B>(xs: seq<A>, ys: seq<A>, f: A -> Option<B>)
    requires multiset(xs) == multiset(ys)
    ensures multiset(Collect(xs, f)) == multiset(Collect(ys, f))
  {
    PermutationLength(xs, ys);
    if xs == [] {
    } else {
      var front, last := xs[..|xs| - 1], xs[|xs| - 1];
      assert xs == front + [last];
      var i, others := TakeOut(ys, front, last);
      CollectPermutation(front, others, f);
      CollectTakeOut(ys[..i], [last], ys[i + 1..], f);
      CollectSnoc(front, last, f);
      CollectSnoc(others, last, f);
    }
  }

  lemma {:induction false} CollectElements<A, B>(xs: seq<A>, f: A -> Option<B>)
    ensures forall b :: b in Collect(xs, f) <==> exists x :: x in xs && f(x) == Some(b)
  {
    if xs == [] {
    } else {
      var front, last := xs[..|xs| - 1], xs[|xs| - 1];
      assert xs == front + [last];
      CollectElements(front, f);
    }
  }

  /** Sequences without repetition and with the same elements are permutations of each other. */
  lemma DistinctPermutation<T>(xs: seq<T>, ys: seq<T>)
    requires Distinct(xs) && Distinct(ys)
    requires forall x :: x in xs <==> x in ys
    ensures multiset(xs) == multiset(ys)
  {
    forall x ensures multiset(xs)[x] == multiset(ys)[x] {
      DistinctMultiplicity(xs, x);
      DistinctMultiplicity(ys, x);
    }
    SameMultiset(multiset(xs), multiset(ys));
  }

  lemma {:induction false} DistinctMultiplicity<T>(xs: seq<T>, x: T)
    requires Distinct(xs)
    ensures multiset(xs)[x] == if x in xs then 1 else 0
  {
    if xs == [] {
    } else {
      assert xs == xs[..|xs| - 1] + [xs[|xs| - 1]];
      DistinctMultiplicity(xs[..|xs| - 1], x);
    }
  }

  lemma PermutationDistinct<T>(xs: seq<T>, ys: seq<T>)
    requires Distinct(xs) && multiset(xs) == multiset(ys)
    ensures Distinct(ys)
  {
    forall i, j | 0 <= i < j < |ys| ensures ys[i] != ys[j] {
      DistinctMultiplicity(xs, ys[i]);
      assert ys == ys[..j] + ys[j..];
      assert multiset(ys)[ys[i]] == multiset(ys[..j])[ys[i]] + multiset(ys[j..])[ys[i]];
      assert ys[i] in ys[..j] && ys[j] in ys[j..];
    }
  }

  lemma {:induction false} DistinctCardinality<T>(xs: seq<T>, all: set<T>)
    requires Enumerates(xs, all)
    ensures |xs| == |all|
  {
    if xs == [] {
      assert all == {};
    } else {
      var front, last := xs[..|xs| - 1], xs[|xs| - 1];
      assert xs == front + [last];
      DistinctCardinality(front, all - {last});
    }
  }
}
