/** The order in which `sorted` enumerates the items of a mapping with string keys: by the
    code points of the keys, which are distinct. */
module NameOrder {
  import opened Sequences

  /** a is at most b, by code points. */
  predicate AtMost(a: string, b: string)
  {
    a == "" || (b != "" && (a[0] < b[0] || (a[0] == b[0] && AtMost(a[1..], b[1..]))))
  }

  predicate Less(a: string, b: string) { AtMost(a, b) && a != b }

  lemma {:induction false} Antisymmetric(a: string, b: string)
    requires AtMost(a, b) && AtMost(b, a)
    ensures a == b
  {
    if a != "" {
      Antisymmetric(a[1..], b[1..]);
      assert a == [a[0]] + a[1..] && b == [b[0]] + b[1..];
    }
  }

  lemma {:induction false} Transitive(a: string, b: string, c: string)
    requires AtMost(a, b) && AtMost(b, c)
    ensures AtMost(a, c)
  {
    if a != "" && a[0] == b[0] && b[0] == c[0] { Transitive(a[1..], b[1..], c[1..]); }
  }

  lemma {:induction false} Total(a: string, b: string)
    ensures AtMost(a, b) || AtMost(b, a)
  {
    if a != "" && b != "" && a[0] == b[0] { Total(a[1..], b[1..]); }
  }

  lemma LessTransitive(a: string, b: string, c: string)
    requires Less(a, b) && Less(b, c)
    ensures Less(a, c)
  {
    Transitive(a, b, c);
    if a == c { Antisymmetric(a, b); }
  }

  type Items<T> = seq<(string, T)>

  ghost predicate DistinctNames<T>(items: Items<T>) {
    forall i, j :: 0 <= i < j < |items| ==> items[i].0 != items[j].0
  }

  ghost predicate Ascending<T>(items: Items<T>) {
    forall i, j :: 0 <= i < j < |items| ==> Less(items[i].0, items[j].0)
  }

  function Insert<T>(x: (string, T), items: Items<T>): (r: Items<T>)
    ensures |r| == |items| + 1
  {
    if items == [] || AtMost(x.0, items[0].0) then [x] + items else [items[0]] + Insert(x, items[1..])
  }

  /** `sorted(files.items())`. */
  function SortedItems<T>(items: Items<T>): (r: Items<T>)
    ensures |r| == |items|
  {
    if items == [] then [] else Insert(items[0], SortedItems(items[1..]))
  }

  lemma {:induction false} InsertKeepsOrder<T>(x: (string, T), items: Items<T>)
    requires Ascending(items) && forall i :: 0 <= i < |items| ==> items[i].0 != x.0
    ensures Ascending(Insert(x, items))
    ensures multiset(Insert(x, items)) == multiset(items) + multiset{x}
  {
    if items == [] {
    } else if AtMost(x.0, items[0].0) {
      forall j | 0 <= j < |items| ensures Less(x.0, items[j].0) {
        if j > 0 { LessTransitive(x.0, items[0].0, items[j].0); }
      }
    } else {
      Total(x.0, items[0].0);
      InsertKeepsOrder(x, items[1..]);
      var rest := Insert(x, items[1..]);
      assert items == [items[0]] + items[1..];
      forall j | 0 <= j < |rest| ensures Less(items[0].0, rest[j].0) {
        assert rest[j] in multiset(rest);
        assert rest[j] == x || rest[j] in items[1..];
      }
    }
  }

  lemma {:induction false} SortedItemsAscend<T>(items: Items<T>)
    requires DistinctNames(items)
    ensures Ascending(SortedItems(items)) && multiset(SortedItems(items)) == multiset(items)
  {
    if items != [] {
      var rest := SortedItems(items[1..]);
      SortedItemsAscend(items[1..]);
      forall i | 0 <= i < |rest| ensures rest[i].0 != items[0].0 {
        assert rest[i] in multiset(items[1..]);
      }
      InsertKeepsOrder(items[0], rest);
      assert items == [items[0]] + items[1..];
    }
  }

  lemma SameHead<T>(a: Items<T>, b: Items<T>)
    requires a != [] && b != [] && Ascending(a) && Ascending(b) && a[0] in b && b[0] in a
    ensures a[0] == b[0]
  {
    if a[0] != b[0] {
      assert Less(b[0].0, a[0].0) && Less(a[0].0, b[0].0);
      Antisymmetric(a[0].0, b[0].0);
    }
  }

  lemma SameTail<T>(a: seq<T>, b: seq<T>)
    requires a != [] && b != [] && a[0] == b[0] && multiset(a) == multiset(b)
    ensures multiset(a[1..]) == multiset(b[1..])
  {
    assert a == [a[0]] + a[1..] && b == [b[0]] + b[1..];
    assert multiset(a[1..]) == multiset(a) - multiset{a[0]};
    assert multiset(b[1..]) == multiset(b) - multiset{b[0]};
  }

  /** There is only one ascending enumeration. */
  lemma {:induction false} AscendingIsUnique<T>(a: Items<T>, b: Items<T>)
    requires Ascending(a) && Ascending(b) && multiset(a) == multiset(b)
    ensures a == b
  {
    PermutationSize(a, b);
    if a != [] {
      assert a[0] in multiset(b) && b[0] in multiset(a);
      SameHead(a, b);
      SameTail(a, b);
      AscendingIsUnique(a[1..], b[1..]);
      DropHead(a, 0);
      DropHead(b, 0);
    }
  }

  /** The sorted items do not depend on the order of enumeration. */
  lemma SortedItemsAreCanonical<T>(a: Items<T>, b: Items<T>)
    requires DistinctNames(a) && multiset(a) == multiset(b)
    ensures SortedItems(a) == SortedItems(b)
  {
    DistinctInAnyOrder(a, b);
    SortedItemsAscend(a);
    SortedItemsAscend(b);
    AscendingIsUnique(SortedItems(a), SortedItems(b));
  }

  lemma DistinctInAnyOrder<T>(a: Items<T>, b: Items<T>)
    requires DistinctNames(a) && multiset(a) == multiset(b)
    ensures DistinctNames(b)
  {
    forall i, j | 0 <= i < j < |b| ensures b[i].0 != b[j].0 {
      var i', j' := PairInPermutation(b, a, i, j);
    }
  }
}
