/** Lists up to the order of their elements, and mapping a function over a list. */
module Rearrange {

  function Map<A, B>(f: A -> B, xs: seq<A>): (r: seq<B>)
    ensures |r| == |xs| && forall i :: 0 <= i < |xs| ==> r[i] == f(xs[i])
  {
    seq(|xs|, i requires 0 <= i < |xs| => f(xs[i]))
  }

  function Without<T>(xs: seq<T>, j: nat): (r: seq<T>)
    requires j < |xs|
    ensures |r| == |xs| - 1 && forall i :: 0 <= i < |r| ==> r[i] == if i < j then xs[i] else xs[i + 1]
  {
    xs[..j] + xs[j + 1..]
  }

  ghost predicate SameElements<T>(xs: seq<T>, ys: seq<T>) {
    multiset(xs) == multiset(ys)
  }

  lemma WithoutLosesOne<T>(xs: seq<T>, j: nat)
    requires j < |xs|
    ensures multiset(xs) == multiset(Without(xs, j)) + multiset{xs[j]}
  {
    assert xs == xs[..j] + [xs[j]] + xs[j + 1..];
  }

  /** Two lists are rearrangements of each other if they are after losing an element they share. */
  lemma MatchOff<T>(xs: seq<T>, i: nat, ys: seq<T>, j: nat)
    requires i < |xs| && j < |ys| && xs[i] == ys[j]
    ensures SameElements(xs, ys) <==> SameElements(Without(xs, i), Without(ys, j))
  {
    WithoutLosesOne(xs, i);
    WithoutLosesOne(ys, j);
    var a, b, c := multiset(Without(xs, i)), multiset(Without(ys, j)), multiset{xs[i]};
    hide Without;
    assert a + c == b + c ==> a == b by {
      assert (a + c) - c == a && (b + c) - c == b;
    }
  }

  lemma Partner<T>(xs: seq<T>, ys: seq<T>, i: nat) returns (j: nat)
    requires SameElements(xs, ys) && i < |xs|
    ensures j < |ys| && ys[j] == xs[i]
  {
    assert xs[i] in multiset(xs);
    assert xs[i] in multiset(ys);
    j :| j < |ys| && ys[j] == xs[i];
  }

  lemma SameLength<T>(xs: seq<T>, ys: seq<T>)
    requires SameElements(xs, ys)
    ensures |xs| == |ys|
  {
    assert |multiset(xs)| == |xs| && |multiset(ys)| == |ys|;
  }

  lemma MapWithout<A, B>(f: A -> B, xs: seq<A>, j: nat)
    requires j < |xs|
    ensures Map(f, Without(xs, j)) == Without(Map(f, xs), j)
  {
  }

  lemma MapAppend<A, B>(f: A -> B, xs: seq<A>, x: A)
    ensures Map(f, xs + [x]) == Map(f, xs) + [f(x)]
  {
  }

  lemma {:induction false} MapPermutes<A, B>(f: A -> B, xs: seq<A>, ys: seq<A>)
    requires SameElements(xs, ys)
    ensures SameElements(Map(f, xs), Map(f, ys))
    decreases |xs|
  {
    SameLength(xs, ys);
    if xs != [] {
      var j := Partner(xs, ys, 0);
      MatchOff(xs, 0, ys, j);
      MapPermutes(f, Without(xs, 0), Without(ys, j));
      MapWithout(f, xs, 0);
      MapWithout(f, ys, j);
      MatchOff(Map(f, xs), 0, Map(f, ys), j);
    } else {
      assert Map(f, xs) == Map(f, ys);
    }
  }

  ghost predicate Collides<A, B>(f: A -> B, inputs: set<A>) {
    exists a, b :: a in inputs && b in inputs && a != b && f(a) == f(b)
  }

  lemma {:induction false} MapReflects<A, B>(f: A -> B, xs: seq<A>, ys: seq<A>, inputs: set<A>)
    requires SameElements(Map(f, xs), Map(f, ys)) && !Collides(f, inputs)
    requires (forall x :: x in xs ==> x in inputs) && (forall y :: y in ys ==> y in inputs)
    ensures SameElements(xs, ys)
    decreases |xs|
  {
    SameLength(Map(f, xs), Map(f, ys));
    if xs != [] {
      var j := Partner(Map(f, xs), Map(f, ys), 0);
      assert f(xs[0]) == f(ys[j]);
      MatchOff(Map(f, xs), 0, Map(f, ys), j);
      MapWithout(f, xs, 0);
      MapWithout(f, ys, j);
      MapReflects(f, Without(xs, 0), Without(ys, j), inputs);
      MatchOff(xs, 0, ys, j);
    }
  }

  /** ys is xs in the given order. */
  ghost predicate Ordered<T>(xs: seq<T>, ys: seq<T>, order: seq<nat>) {
    && |xs| == |ys| == |order|
    && (forall i :: 0 <= i < |order| ==> order[i] < |xs| && ys[i] == xs[order[i]])
    && (forall i, j :: 0 <= i < j < |order| ==> order[i] != order[j])
  }

  lemma {:induction false} OrderedIsSame<T>(xs: seq<T>, ys: seq<T>, order: seq<nat>)
    requires Ordered(xs, ys, order)
    ensures SameElements(xs, ys)
    decreases |xs|
  {
    if xs != [] {
      var k := order[0];
      var rest := seq(|order| - 1, i requires 0 <= i < |order| - 1 =>
        if order[i + 1] < k then order[i + 1] else order[i + 1] - 1);
      forall i | 0 <= i < |rest| ensures rest[i] < |xs| - 1 && Without(ys, 0)[i] == Without(xs, k)[rest[i]] {
        assert order[i + 1] != k;
      }
      OrderedIsSame(Without(xs, k), Without(ys, 0), rest);
      MatchOff(xs, k, ys, 0);
    }
  }

  // ---------- sorting ----------

  ghost predicate TotalOrder<T(!new)>(leq: (T, T) -> bool) {
    && (forall a, b :: leq(a, b) || leq(b, a))
    && (forall a, b :: leq(a, b) && leq(b, a) ==> a == b)
    && (forall a, b, c :: leq(a, b) && leq(b, c) ==> leq(a, c))
  }

  predicate IsSorted<T>(leq: (T, T) -> bool, xs: seq<T>) {
    forall i, j :: 0 <= i < j < |xs| ==> leq(xs[i], xs[j])
  }

  function Insert<T>(leq: (T, T) -> bool, x: T, xs: seq<T>): seq<T> {
    if xs == [] || leq(x, xs[0]) then [x] + xs else [xs[0]] + Insert(leq, x, xs[1..])
  }

  function Sorted<T>(leq: (T, T) -> bool, xs: seq<T>): seq<T> {
    if xs == [] then [] else Insert(leq, xs[0], Sorted(leq, xs[1..]))
  }

  lemma {:induction false} InsertSorts<T(!new)>(leq: (T, T) -> bool, x: T, xs: seq<T>)
    requires TotalOrder(leq) && IsSorted(leq, xs)
    ensures IsSorted(leq, Insert(leq, x, xs)) && multiset(Insert(leq, x, xs)) == multiset{x} + multiset(xs)
  {
    if xs != [] {
      assert xs == [xs[0]] + xs[1..];
      if !leq(x, xs[0]) {
        var t := Insert(leq, x, xs[1..]);
        InsertSorts(leq, x, xs[1..]);
        hide Insert;
        forall j | 0 <= j < |t| ensures leq(xs[0], t[j]) { assert t[j] in multiset(t); }
        assert leq(xs[0], x);
      }
    }
  }

  lemma {:induction false} SortedSorts<T(!new)>(leq: (T, T) -> bool, xs: seq<T>)
    requires TotalOrder(leq)
    ensures IsSorted(leq, Sorted(leq, xs)) && SameElements(Sorted(leq, xs), xs)
  {
    if xs != [] {
      assert xs == [xs[0]] + xs[1..];
      SortedSorts(leq, xs[1..]);
      InsertSorts(leq, xs[0], Sorted(leq, xs[1..]));
    }
  }

  lemma SortedHeads<T(!new)>(leq: (T, T) -> bool, xs: seq<T>, ys: seq<T>)
    requires TotalOrder(leq) && IsSorted(leq, xs) && IsSorted(leq, ys) && SameElements(xs, ys) && xs != [] && ys != []
    ensures xs[0] == ys[0]
  {
    var i := Partner(xs, ys, 0);
    var j := Partner(ys, xs, 0);
    assert leq(xs[0], xs[j]) && leq(ys[0], ys[i]);
  }

  lemma SortedTail<T>(leq: (T, T) -> bool, xs: seq<T>)
    requires IsSorted(leq, xs) && xs != []
    ensures IsSorted(leq, xs[1..])
  {
  }

  lemma SameTails<T>(xs: seq<T>, ys: seq<T>)
    requires SameElements(xs, ys) && xs != [] && ys != [] && xs[0] == ys[0]
    ensures SameElements(xs[1..], ys[1..])
  {
    MatchOff(xs, 0, ys, 0);
    assert Without(xs, 0) == xs[1..] && Without(ys, 0) == ys[1..];
  }

  /** There is one way to sort. */
  lemma {:induction false} SortedUnique<T(!new)>(leq: (T, T) -> bool, xs: seq<T>, ys: seq<T>)
    requires TotalOrder(leq) && IsSorted(leq, xs) && IsSorted(leq, ys) && SameElements(xs, ys)
    ensures xs == ys
  {
    SameLength(xs, ys);
    if xs != [] {
      SortedHeads(leq, xs, ys);
      SameTails(xs, ys);
      SortedTail(leq, xs);
      SortedTail(leq, ys);
      hide *;
      SortedUnique(leq, xs[1..], ys[1..]);
      assert xs == [xs[0]] + xs[1..] && ys == [ys[0]] + ys[1..];
    }
  }
}
