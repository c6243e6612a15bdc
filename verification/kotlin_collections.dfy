/**
 * The few `kotlin.collections` operations the converters rely on: `map` over a
 * list, and iterating a `HashSet`, whose order is unspecified and is therefore
 * passed in as a sequence that lists each element exactly once.
 */
module KotlinCollections {
  import opened Wrappers

  /** `order` lists every element of `s` exactly once: one iteration order of a hash set. */
  ghost predicate Enumerates<T(!new)>(order: seq<T>, s: set<T>) {
    && (forall i, j :: 0 <= i < j < |order| ==> order[i] != order[j])
    && (forall x :: x in order <==> x in s)
  }

  /** Iterating a set visits as many elements as the set has. */
  lemma {:induction false} EnumerationSize<T(!new)>(order: seq<T>, s: set<T>)
    requires Enumerates(order, s)
    ensures |order| == |s|
  {
    if |order| > 0 {
      var rest := s - {order[0]};
      forall x
        ensures x in order[1..] <==> x in rest
      {
        if x in order[1..] {
          var j :| 0 <= j < |order[1..]| && order[1..][j] == x;
          assert order[j + 1] == x;
        }
        if x in rest {
          var j :| 0 <= j < |order| && order[j] == x;
          assert j != 0;
          assert order[1..][j - 1] == x;
        }
      }
      EnumerationSize(order[1..], rest);
    }
  }

  /** `xs.map(f)`. */
  function Map<A, B>(xs: seq<A>, f: A -> B): (r: seq<B>)
    ensures |r| == |xs| && forall i :: 0 <= i < |xs| ==> r[i] == f(xs[i])
  {
    seq(|xs|, i requires 0 <= i < |xs| => f(xs[i]))
  }

  /** The elements of a mapped list are the images of the list's elements. */
  lemma MapMembers<A, B>(xs: seq<A>, f: A -> B)
    ensures forall y :: y in Map(xs, f) <==> exists x :: x in xs && y == f(x)
  {
    var r := Map(xs, f);
    forall y | y in r
      ensures exists x :: x in xs && y == f(x)
    {
      var i :| 0 <= i < |r| && r[i] == y;
      assert xs[i] in xs;
    }
    forall y | exists x :: x in xs && y == f(x)
      ensures y in r
    {
      var x :| x in xs && y == f(x);
      var i :| 0 <= i < |xs| && xs[i] == x;
      assert r[i] == y;
    }
  }

  /** Mapping a set's elements gives the same elements whichever order the set is iterated in. */
  lemma MapOrderFree<A(!new), B>(order1: seq<A>, order2: seq<A>, s: set<A>, f: A -> B)
    requires Enumerates(order1, s) && Enumerates(order2, s)
    ensures forall y :: y in Map(order1, f) <==> y in Map(order2, f)
    ensures |Map(order1, f)| == |Map(order2, f)| == |s|
  {
    MapMembers(order1, f);
    MapMembers(order2, f);
    EnumerationSize(order1, s);
    EnumerationSize(order2, s);
  }

  /** `k` is the first element of `xs` on which `f` throws. */
  predicate FirstFailure<A, B, E>(xs: seq<A>, f: A -> Result<B, E>, k: int) {
    && 0 <= k < |xs| && f(xs[k]).Failure?
    && forall j :: 0 <= j < k ==> f(xs[j]).Success?
  }

  /** `xs.map(f)` for an `f` that may throw: the images in order, or the first exception. */
  function MapOrFail<A, B, E>(xs: seq<A>, f: A -> Result<B, E>): (r: Result<seq<B>, E>)
    ensures r.Failure? <==> exists k :: 0 <= k < |xs| && f(xs[k]).Failure?
    ensures r.Failure? ==> exists k :: FirstFailure(xs, f, k) && r.error == f(xs[k]).error
    ensures r.Success? ==> |r.value| == |xs|
    ensures r.Success? ==> forall i :: 0 <= i < |xs| ==> f(xs[i]) == Success(r.value[i])
    decreases |xs|
  {
    if |xs| == 0 then Success([])
    else
      match f(xs[0])
      case Failure(e) =>
        assert FirstFailure(xs, f, 0);
        Failure(e)
      case Success(y) =>
        assert forall k :: 1 <= k < |xs| ==> xs[k] == xs[1..][k - 1];
        match MapOrFail(xs[1..], f)
        case Failure(e) =>
          assert forall k :: FirstFailure(xs[1..], f, k) ==> FirstFailure(xs, f, k + 1);
          Failure(e)
        case Success(ys) =>
          Success([y] + ys)
  }
}
