/** Stable sorting of keyed values under a total order of their keys. */
module Ordering {
  datatype Keyed<T> = Keyed(key: string, value: T)

  type Order = (string, string) -> bool

  ghost predicate TotalOrder(le: Order) {
    && (forall a: string :: le(a, a))
    && (forall a: string, b: string :: le(a, b) || le(b, a))
    && (forall a: string, b: string :: le(a, b) && le(b, a) ==> a == b)
    && (forall a: string, b: string, c: string :: le(a, b) && le(b, c) ==> le(a, c))
  }

  function KeysOf<T>(xs: seq<Keyed<T>>): (keys: seq<string>) { seq(|xs|, i requires 0 <= i < |xs| => xs[i].key) }

  function ValuesOf<T>(xs: seq<Keyed<T>>): (values: seq<T>) { seq(|xs|, i requires 0 <= i < |xs| => xs[i].value) }

  predicate DistinctKeys<T>(xs: seq<Keyed<T>>) {
    forall i, j | 0 <= i < j < |xs| :: xs[i].key != xs[j].key
  }

  predicate SortedStrings(keys: seq<string>, le: Order) {
    forall i, j | 0 <= i < j < |keys| :: le(keys[i], keys[j])
  }

  predicate Sorted<T>(xs: seq<Keyed<T>>, le: Order) {
    forall i, j | 0 <= i < j < |xs| :: le(xs[i].key, xs[j].key)
  }

  function Insert<T>(x: Keyed<T>, sorted: seq<Keyed<T>>, le: Order): seq<Keyed<T>> {
    if sorted == [] then [x]
    else if le(x.key, sorted[0].key) then [x] + sorted
    else [sorted[0]] + Insert(x, sorted[1..], le)
  }

  function Sort<T>(xs: seq<Keyed<T>>, le: Order): seq<Keyed<T>> {
    if xs == [] then [] else Insert(xs[0], Sort(xs[1..], le), le)
  }

  lemma {:induction false} InsertAdds<T>(x: Keyed<T>, sorted: seq<Keyed<T>>, le: Order)
    ensures multiset(Insert(x, sorted, le)) == multiset{x} + multiset(sorted)
    ensures |Insert(x, sorted, le)| == |sorted| + 1
    decreases |sorted|
  {
    if sorted != [] {
      assert sorted == [sorted[0]] + sorted[1..];
      InsertAdds(x, sorted[1..], le);
    }
  }

  lemma {:induction false} InsertSorts<T>(x: Keyed<T>, sorted: seq<Keyed<T>>, le: Order)
    requires TotalOrder(le) && Sorted(sorted, le)
    ensures Sorted(Insert(x, sorted, le), le)
    decreases |sorted|
  {
    if sorted != [] && !le(x.key, sorted[0].key) {
      InsertSorts(x, sorted[1..], le);
      InsertAdds(x, sorted[1..], le);
      var tail := Insert(x, sorted[1..], le);
      forall j | 0 <= j < |tail| ensures le(sorted[0].key, tail[j].key) {
        assert tail[j] in multiset(tail);
        if tail[j] != x { assert tail[j] in sorted[1..]; }
      }
    }
  }

  lemma HeadAndTail<T>(xs: seq<T>)
    requires xs != []
    ensures multiset(xs) == multiset{xs[0]} + multiset(xs[1..])
  {
    assert xs == [xs[0]] + xs[1..];
  }

  lemma {:induction false} SortPermutes<T>(xs: seq<Keyed<T>>, le: Order)
    ensures multiset(Sort(xs, le)) == multiset(xs) && |Sort(xs, le)| == |xs|
    decreases |xs|
  {
    if xs != [] {
      HeadAndTail(xs);
      hide Insert;
      SortPermutes(xs[1..], le);
      InsertAdds(xs[0], Sort(xs[1..], le), le);
    }
  }

  lemma {:induction false} SortSorts<T>(xs: seq<Keyed<T>>, le: Order)
    requires TotalOrder(le)
    ensures Sorted(Sort(xs, le), le)
    decreases |xs|
  {
    if xs != [] {
      hide Insert, TotalOrder, Sorted;
      SortSorts(xs[1..], le);
      InsertSorts(xs[0], Sort(xs[1..], le), le);
    }
  }

  /** Sorting orders the keys and keeps every value as often as it was there. */
  lemma SortOrders<T>(xs: seq<Keyed<T>>, le: Order)
    requires TotalOrder(le)
    ensures Sorted(Sort(xs, le), le) && multiset(Sort(xs, le)) == multiset(xs) && |Sort(xs, le)| == |xs|
  {
    hide TotalOrder, Sorted, Sort;
    SortPermutes(xs, le);
    SortSorts(xs, le);
  }

  lemma HeadIsLeast(keys: seq<string>, k: string, le: Order)
    requires TotalOrder(le) && SortedStrings(keys, le) && k in keys
    ensures le(keys[0], k)
  {
  }

  lemma TailOf(keys: seq<string>, le: Order)
    requires SortedStrings(keys, le) && keys != []
    ensures SortedStrings(keys[1..], le) && multiset(keys[1..]) == multiset(keys) - multiset{keys[0]}
  {
    assert keys == [keys[0]] + keys[1..];
  }

  lemma {:induction false} SortedStringsUnique(a: seq<string>, b: seq<string>, le: Order)
    requires TotalOrder(le) && SortedStrings(a, le) && SortedStrings(b, le) && multiset(a) == multiset(b)
    ensures a == b
    decreases |a|
  {
    assert |a| == |multiset(a)| && |b| == |multiset(b)|;
    if a != [] {
      assert a[0] in multiset(b) && b[0] in multiset(a);
      HeadIsLeast(a, b[0], le);
      HeadIsLeast(b, a[0], le);
      assert a[0] == b[0];
      hide TotalOrder, SortedStrings;
      TailOf(a, le);
      TailOf(b, le);
      SortedStringsUnique(a[1..], b[1..], le);
    }
  }

  function RemoveAt<T>(xs: seq<T>, i: nat): seq<T>
    requires i < |xs|
  {
    xs[..i] + xs[i + 1..]
  }

  lemma RemovesOne<T>(xs: seq<T>, i: nat)
    requires i < |xs|
    ensures multiset(xs) == multiset(RemoveAt(xs, i)) + multiset{xs[i]}
    ensures multiset(RemoveAt(xs, i)) == multiset(xs) - multiset{xs[i]} && |RemoveAt(xs, i)| == |xs| - 1
  {
    assert xs == xs[..i] + [xs[i]] + xs[i + 1..];
  }

  lemma RemovesKey<T>(xs: seq<Keyed<T>>, i: nat)
    requires i < |xs|
    ensures multiset(KeysOf(xs)) == multiset(KeysOf(RemoveAt(xs, i))) + multiset{xs[i].key}
  {
    RemovesOne(KeysOf(xs), i);
    assert KeysOf(RemoveAt(xs, i)) == RemoveAt(KeysOf(xs), i);
  }

  lemma RemovesValue<T>(xs: seq<Keyed<T>>, i: nat)
    requires i < |xs|
    ensures multiset(ValuesOf(xs)) == multiset(ValuesOf(RemoveAt(xs, i))) + multiset{xs[i].value}
  {
    RemovesOne(ValuesOf(xs), i);
    assert ValuesOf(RemoveAt(xs, i)) == RemoveAt(ValuesOf(xs), i);
  }

  lemma {:induction false} ValuesMultiset<T>(a: seq<Keyed<T>>, b: seq<Keyed<T>>)
    requires multiset(a) == multiset(b)
    ensures multiset(ValuesOf(a)) == multiset(ValuesOf(b))
    decreases |a|
  {
    assert |a| == |multiset(a)| && |b| == |multiset(b)|;
    if a == [] {
      assert ValuesOf(a) == ValuesOf(b);
    } else {
      assert a[0] in multiset(b);
      var i :| 0 <= i < |b| && b[i] == a[0];
      RemovesOne(a, 0);
      RemovesOne(b, i);
      RemovesValue(a, 0);
      RemovesValue(b, i);
      hide RemoveAt, ValuesOf;
      ValuesMultiset(RemoveAt(a, 0), RemoveAt(b, i));
    }
  }

  lemma {:induction false} KeysMultiset<T>(a: seq<Keyed<T>>, b: seq<Keyed<T>>)
    requires multiset(a) == multiset(b)
    ensures multiset(KeysOf(a)) == multiset(KeysOf(b))
    decreases |a|
  {
    assert |a| == |multiset(a)| && |b| == |multiset(b)|;
    if a == [] {
      assert KeysOf(a) == KeysOf(b);
    } else {
      assert a[0] in multiset(b);
      var i :| 0 <= i < |b| && b[i] == a[0];
      RemovesOne(a, 0);
      RemovesOne(b, i);
      RemovesKey(a, 0);
      RemovesKey(b, i);
      hide RemoveAt, KeysOf;
      KeysMultiset(RemoveAt(a, 0), RemoveAt(b, i));
    }
  }

  /** Permutations have the same keys in the same places once sorted. */
  lemma SortedKeysAgree<T>(a: seq<Keyed<T>>, b: seq<Keyed<T>>, le: Order)
    requires TotalOrder(le) && multiset(a) == multiset(b)
    ensures KeysOf(Sort(a, le)) == KeysOf(Sort(b, le))
  {
    SortOrders(a, le);
    SortOrders(b, le);
    KeysMultiset(Sort(a, le), Sort(b, le));
    SortedStringsUnique(KeysOf(Sort(a, le)), KeysOf(Sort(b, le)), le);
  }

  /** Permutations with distinct keys sort to the same sequence. */
  lemma SortIgnoresOrder<T>(a: seq<Keyed<T>>, b: seq<Keyed<T>>, le: Order)
    requires TotalOrder(le) && multiset(a) == multiset(b) && DistinctKeys(a)
    ensures Sort(a, le) == Sort(b, le)
  {
    SortOrders(a, le);
    SortOrders(b, le);
    SortedKeysAgree(a, b, le);
    var x, y := Sort(a, le), Sort(b, le);
    assert |KeysOf(x)| == |x| && |KeysOf(y)| == |y|;
    forall i | 0 <= i < |x| ensures x[i] == y[i] {
      assert x[i] in multiset(a) && y[i] in multiset(a);
      assert KeysOf(x)[i] == KeysOf(y)[i];
      SameKeySameValue(a, x[i], y[i]);
    }
  }

  lemma SameKeySameValue<T>(xs: seq<Keyed<T>>, x: Keyed<T>, y: Keyed<T>)
    requires DistinctKeys(xs) && x in xs && y in xs && x.key == y.key
    ensures x == y
  {
  }

  /** A sequence already in order is left as it is. */
  lemma {:induction false} SortKeepsSorted<T>(xs: seq<Keyed<T>>, le: Order)
    requires Sorted(xs, le)
    ensures Sort(xs, le) == xs
    decreases |xs|
  {
    if xs != [] { SortKeepsSorted(xs[1..], le); }
  }
}
