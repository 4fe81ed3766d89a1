/** Facts about sequences and multisets that several modules share. */
module Sequences {

  type Bytes = seq<bv8>

  datatype Option<+T> = None | Some(value: T)

  function WithoutIndex<T>(s: seq<T>, i: nat): seq<T>
    requires i < |s|
  {
    s[..i] + s[i + 1..]
  }

  lemma WithoutIndexMultiset<T>(s: seq<T>, i: nat)
    requires i < |s|
    ensures multiset(WithoutIndex(s, i)) == multiset(s) - multiset{s[i]}
  {
    assert s == s[..i] + [s[i]] + s[i + 1..];
  }

  lemma TakeSnoc<T>(s: seq<T>, k: nat)
    requires k < |s|
    ensures s[..k + 1] == s[..k] + [s[k]]
  {
  }

  lemma ConcatIsAssociative<T>(a: seq<T>, b: seq<T>, c: seq<T>)
    ensures a + (b + c) == (a + b) + c
  {
  }

  lemma SplitAround<T>(s: seq<T>, a: nat, b: nat)
    requires a <= b <= |s|
    ensures s[..a] + s[a..b] + s[b..] == s
  {
  }

  lemma DropHead<T>(s: seq<T>, k: nat)
    requires k < |s|
    ensures s[k..] == [s[k]] + s[k + 1..]
  {
  }

  lemma WithoutIndexSnoc<T>(s: seq<T>, x: T, i: nat)
    requires i <= |s|
    ensures WithoutIndex(s + [x], i) == if i == |s| then s else WithoutIndex(s, i) + [x]
  {
    assert (s + [x])[..i] == s[..i];
    if i < |s| { assert (s + [x])[i + 1..] == s[i + 1..] + [x]; }
  }

  /** A permutation of s contains the head of s, and dropping the head there leaves a
      permutation of the tail. */
  lemma PermutationHead<T>(s: seq<T>, t: seq<T>) returns (i: nat)
    requires s != [] && multiset(s) == multiset(t)
    ensures i < |t| && t[i] == s[0]
    ensures multiset(s[1..]) == multiset(WithoutIndex(t, i))
  {
    assert s[0] in multiset(t);
    i :| 0 <= i < |t| && t[i] == s[0];
    WithoutIndexMultiset(s, 0);
    assert WithoutIndex(s, 0) == s[1..];
    WithoutIndexMultiset(t, i);
  }

  lemma PermutationSize<T>(s: seq<T>, t: seq<T>)
    requires multiset(s) == multiset(t)
    ensures |s| == |t|
  {
    assert |s| == |multiset(s)| == |multiset(t)| == |t|;
  }

  /** Two positions of a sequence have two different positions with the same elements in
      every permutation of it. */
  lemma PairInPermutation<T>(s: seq<T>, t: seq<T>, i: nat, j: nat) returns (i': nat, j': nat)
    requires i < j < |s| && multiset(s) == multiset(t)
    ensures i' < |t| && j' < |t| && i' != j' && t[i'] == s[i] && t[j'] == s[j]
  {
    assert s[i] in multiset(t);
    i' :| 0 <= i' < |t| && t[i'] == s[i];
    WithoutIndexMultiset(s, i);
    WithoutIndexMultiset(t, i');
    assert WithoutIndex(s, i)[j - 1] == s[j];
    assert s[j] in multiset(WithoutIndex(t, i'));
    var k :| 0 <= k < |WithoutIndex(t, i')| && WithoutIndex(t, i')[k] == s[j];
    j' := if k < i' then k else k + 1;
  }

  function Map<A, B>(f: A -> B, s: seq<A>): (t: seq<B>)
    ensures |t| == |s|
  {
    seq(|s|, i requires 0 <= i < |s| => f(s[i]))
  }

  lemma MapCons<A, B>(f: A -> B, x: A, s: seq<A>)
    ensures Map(f, [x] + s) == [f(x)] + Map(f, s)
  {
  }

  lemma {:induction false} MapPermutes<A, B>(f: A -> B, a: seq<A>, b: seq<A>)
    requires multiset(a) == multiset(b)
    ensures multiset(Map(f, a)) == multiset(Map(f, b))
    decreases |a|
  {
    PermutationSize(a, b);
    if a != [] {
      var i := PermutationHead(a, b);
      MapPermutes(f, a[1..], WithoutIndex(b, i));
      var x, y := Map(f, a), Map(f, b);
      assert x == [y[i]] + Map(f, a[1..]);
      assert Map(f, WithoutIndex(b, i)) == WithoutIndex(y, i);
      WithoutIndexMultiset(y, i);
    }
  }
}
