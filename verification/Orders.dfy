/**
  Sorting with a comparator, as `sort.Slice` and `sort.Strings` are used by the inventory.
  Nothing here assumes a stable sort: a sort is any permutation that the comparator accepts.
 */
module Orders {
  import opened Grouping

  /** What `sort.Slice` asks of a comparator: incomparability is an equivalence and `less` orders its classes. */
  ghost predicate StrictWeakOrder<T(!new)>(less: (T, T) -> bool) {
    && (forall a :: !less(a, a))
    && (forall a, b, c :: less(a, b) && less(b, c) ==> less(a, c))
    && (forall a, b, c :: !less(a, b) && !less(b, c) ==> !less(a, c))
  }

  ghost predicate Tied<T>(less: (T, T) -> bool, a: T, b: T) {
    !less(a, b) && !less(b, a)
  }

  ghost predicate SortedBy<T>(xs: seq<T>, less: (T, T) -> bool) {
    forall i, j :: 0 <= i < j < |xs| ==> !less(xs[j], xs[i])
  }

  /** No two positions tie. */
  ghost predicate Ascending<T>(xs: seq<T>, less: (T, T) -> bool) {
    forall i, j :: 0 <= i < j < |xs| ==> less(xs[i], xs[j])
  }

  ghost predicate SortedPrefix<T>(a: array<T>, n: int, less: (T, T) -> bool)
    requires 0 <= n <= a.Length
    reads a
  {
    forall p, q :: 0 <= p < q < n ==> !less(a[q], a[p])
  }

  /** Moves a[n] down to its place in the sorted prefix before it. */
  method SinkLast<T(!new)>(a: array<T>, n: nat, less: (T, T) -> bool)
    requires StrictWeakOrder(less)
    requires n < a.Length && SortedPrefix(a, n, less)
    modifies a
    ensures SortedPrefix(a, n + 1, less)
    ensures multiset(a[..]) == old(multiset(a[..]))
  {
    var j := n;
    while j > 0 && less(a[j], a[j - 1])
      invariant 0 <= j <= n
      invariant forall p, q :: 0 <= p < q <= n && q != j ==> !less(a[q], a[p])
      invariant multiset(a[..]) == old(multiset(a[..]))
    {
      a[j - 1], a[j] := a[j], a[j - 1];
      j := j - 1;
    }
  }

  /** Sorts in place; only the order of tied elements is left open. */
  method SortSlice<T(!new)>(a: array<T>, less: (T, T) -> bool)
    requires StrictWeakOrder(less)
    modifies a
    ensures SortedBy(a[..], less)
    ensures multiset(a[..]) == old(multiset(a[..]))
  {
    for n := 0 to a.Length
      invariant SortedPrefix(a, n, less)
      invariant multiset(a[..]) == old(multiset(a[..]))
    {
      SinkLast(a, n, less);
    }
  }

  lemma LastIsLast<T(!new)>(xs: seq<T>, x: T, more: seq<T>, less: (T, T) -> bool)
    requires StrictWeakOrder(less) && SortedBy(xs, less)
    requires xs != [] && less(x, xs[|xs| - 1])
    requires multiset(more) == multiset(xs[..|xs| - 1]) + multiset{x}
    ensures forall i :: 0 <= i < |more| ==> !less(xs[|xs| - 1], more[i])
  {
    forall i | 0 <= i < |more| ensures !less(xs[|xs| - 1], more[i]) {
      assert more[i] in multiset(more);
      if more[i] in xs[..|xs| - 1] {
        var j :| 0 <= j < |xs| - 1 && xs[j] == more[i];
      }
    }
  }

  lemma {:induction false} InsertSorted<T(!new)>(xs: seq<T>, x: T, less: (T, T) -> bool) returns (ys: seq<T>)
    requires StrictWeakOrder(less) && SortedBy(xs, less)
    ensures multiset(ys) == multiset(xs) + multiset{x} && SortedBy(ys, less)
  {
    if xs == [] || !less(x, xs[|xs| - 1]) {
      ys := xs + [x];
    } else {
      var front, last := xs[..|xs| - 1], xs[|xs| - 1];
      assert xs == front + [last];
      var more := InsertSorted(front, x, less);
      ys := more + [last];
      LastIsLast(xs, x, more, less);
    }
  }

  /** Every list has a sorted permutation. */
  lemma {:induction false} SortedExists<T(!new)>(xs: seq<T>, less: (T, T) -> bool) returns (ys: seq<T>)
    requires StrictWeakOrder(less)
    ensures multiset(ys) == multiset(xs) && SortedBy(ys, less)
  {
    if xs == [] {
      ys := [];
    } else {
      var front, last := xs[..|xs| - 1], xs[|xs| - 1];
      assert xs == front + [last];
      var more := SortedExists(front, less);
      ys := InsertSorted(more, last, less);
    }
  }

  /** How many elements of xs come strictly before the pivot. */
  ghost function Before<T>(less: (T, T) -> bool, pivot: T): T -> bool {
    x => less(x, pivot)
  }

  /** In a sorted sequence only earlier positions can hold elements before xs[i]. */
  lemma {:induction false} RankAtMost<T(!new)>(xs: seq<T>, less: (T, T) -> bool, pivot: T, i: nat)
    requires forall j :: i <= j < |xs| ==> !less(xs[j], pivot)
    ensures |Group(xs, Before(less, pivot), true)| <= i
  {
    if xs == [] {
    } else {
      var front := xs[..|xs| - 1];
      if i < |xs| {
        RankAtMost(front, less, pivot, i);
      } else {
        GroupLength(xs, Before(less, pivot), true);
      }
    }
  }

  lemma {:induction false} GroupLength<T, K>(xs: seq<T>, key: T -> K, k: K)
    ensures |Group(xs, key, k)| <= |xs|
  {
    if xs == [] {
    } else {
      GroupLength(xs[..|xs| - 1], key, k);
    }
  }

  lemma {:induction false} RankAtLeast<T(!new)>(xs: seq<T>, less: (T, T) -> bool, pivot: T, n: nat)
    requires n <= |xs|
    requires forall j :: 0 <= j < n ==> less(xs[j], pivot)
    ensures |Group(xs, Before(less, pivot), true)| >= n
  {
    if xs == [] {
    } else {
      RankAtLeast(xs[..|xs| - 1], less, pivot, if n == |xs| then n - 1 else n);
    }
  }

  /**
    Any two sorted permutations of one multiset tie at every index, so whatever the comparator
    looks at is determined position by position although the sort is not stable.
   */
  lemma SortedPermutationsTie<T(!new)>(xs: seq<T>, ys: seq<T>, less: (T, T) -> bool)
    requires StrictWeakOrder(less)
    requires multiset(xs) == multiset(ys)
    requires SortedBy(xs, less) && SortedBy(ys, less)
    ensures |xs| == |ys|
    ensures forall i :: 0 <= i < |xs| ==> Tied(less, xs[i], ys[i])
  {
    PermutationLength(xs, ys);
    forall i | 0 <= i < |xs| ensures Tied(less, xs[i], ys[i]) {
      NotBefore(xs, ys, less, i);
      NotBefore(ys, xs, less, i);
    }
  }

  lemma NotBefore<T(!new)>(xs: seq<T>, ys: seq<T>, less: (T, T) -> bool, i: nat)
    requires StrictWeakOrder(less)
    requires multiset(xs) == multiset(ys)
    requires SortedBy(xs, less) && SortedBy(ys, less)
    requires i < |xs| == |ys|
    ensures !less(xs[i], ys[i])
  {
    if less(xs[i], ys[i]) {
      var pivot := ys[i];
      forall j | 0 <= j < i + 1 ensures less(xs[j], pivot) {
        assert !less(xs[i], xs[j]);
      }
      RankAtLeast(xs, less, pivot, i + 1);
      forall j | i <= j < |ys| ensures !less(ys[j], pivot) {}
      RankAtMost(ys, less, pivot, i);
      GroupPermutation(xs, ys, Before(less, pivot), true);
    }
  }

  lemma {:induction false} GroupSorted<T(!new), K>(xs: seq<T>, less: (T, T) -> bool, key: T -> K, k: K)
    requires SortedBy(xs, less)
    ensures SortedBy(Group(xs, key, k), less)
  {
    if xs == [] {
    } else {
      var front, last := xs[..|xs| - 1], xs[|xs| - 1];
      var g := Group(front, key, k);
      GroupSorted(front, less, key, k);
      GroupElements(front, key, k);
      forall i | 0 <= i < |g| ensures !less(last, g[i]) {
        assert g[i] in front;
        var j :| 0 <= j < |front| && front[j] == g[i];
        assert xs[j] == g[i];
      }
    }
  }

  /**
    If the keys of xs never decrease, listing the groups in ascending key order spells out xs itself:
    each group is one contiguous block and the blocks come in the order of the keys.
   */
  lemma {:induction false} BlocksInOrder<T(!new), K(!new)>(xs: seq<T>, key: T -> K, keys: seq<K>, less: (K, K) -> bool)
    requires StrictWeakOrder(less)
    requires Ascending(keys, less)
    requires forall x :: x in xs ==> key(x) in keys
    requires forall i, j :: 0 <= i < j < |xs| ==> !less(key(xs[j]), key(xs[i]))
    ensures FlattenGroups(xs, key, keys) == xs
    decreases |keys| + |xs|
  {
    if keys == [] {
    } else {
      var top := keys[|keys| - 1];
      var below := keys[..|keys| - 1];
      if xs == [] {
        BlocksInOrder(xs, key, below, less);
      } else {
        var front, last := xs[..|xs| - 1], xs[|xs| - 1];
        assert xs == front + [last];
        if key(last) == top {
          BlocksInOrder(front, key, keys, less);
          FlattenIgnores(front, last, key, below);
          GroupSnoc(front, last, key, top);
        } else {
          KeysBelowTop(xs, key, keys, less);
          BlocksInOrder(xs, key, below, less);
          GroupAbsent(xs, key, top);
        }
      }
    }
  }

  lemma KeysBelowTop<T(!new), K(!new)>(xs: seq<T>, key: T -> K, keys: seq<K>, less: (K, K) -> bool)
    requires Ascending(keys, less)
    requires xs != [] && keys != []
    requires forall x :: x in xs ==> key(x) in keys
    requires forall i, j :: 0 <= i < j < |xs| ==> !less(key(xs[j]), key(xs[i]))
    requires key(xs[|xs| - 1]) != keys[|keys| - 1]
    ensures forall x :: x in xs ==> key(x) != keys[|keys| - 1] && key(x) in keys[..|keys| - 1]
  {
    var last, top := xs[|xs| - 1], keys[|keys| - 1];
    var m :| 0 <= m < |keys| && keys[m] == key(last);
    assert less(key(last), top);
    forall i | 0 <= i < |xs| ensures key(xs[i]) != top && key(xs[i]) in keys[..|keys| - 1] {
      var n :| 0 <= n < |keys| && keys[n] == key(xs[i]);
      assert keys[n] != top;
      assert keys[..|keys| - 1][n] == key(xs[i]);
    }
  }

  lemma {:induction false} FlattenIgnores<T, K>(xs: seq<T>, x: T, key: T -> K, keys: seq<K>)
    requires key(x) !in keys
    ensures FlattenGroups(xs + [x], key, keys) == FlattenGroups(xs, key, keys)
  {
    if keys == [] {
    } else {
      FlattenIgnores(xs, x, key, keys[..|keys| - 1]);
      GroupSnoc(xs, x, key, keys[|keys| - 1]);
    }
  }
}
