/** `Array.prototype.filter` and `slice(0, n)` over sequences. */
module Collections {

  /** `xs.filter(p)`: the elements satisfying `p`, in their original order. */
  function Filter<T>(xs: seq<T>, p: T -> bool): (r: seq<T>)
    ensures |r| <= |xs|
    ensures forall x :: x in r ==> x in xs && p(x)
  {
    if xs == [] then []
    else (if p(xs[0]) then [xs[0]] else []) + Filter(xs[1..], p)
  }

  /** Each element is kept as often as it occurs when it satisfies `p`, and dropped otherwise. */
  lemma {:induction false} FilterCount<T>(xs: seq<T>, p: T -> bool, x: T)
    ensures multiset(Filter(xs, p))[x] == if p(x) then multiset(xs)[x] else 0
  {
    if xs != [] {
      assert xs == [xs[0]] + xs[1..];
      FilterCount(xs[1..], p, x);
    }
  }

  /** Filtering with a condition every element meets changes nothing. */
  lemma {:induction false} FilterKeepsAll<T>(xs: seq<T>, p: T -> bool)
    requires forall x :: x in xs ==> p(x)
    ensures Filter(xs, p) == xs
  {
    if xs != [] {
      FilterKeepsAll(xs[1..], p);
    }
  }

  /** Filtering with a condition no element meets leaves nothing. */
  lemma {:induction false} FilterDropsAll<T>(xs: seq<T>, p: T -> bool)
    requires forall x :: x in xs ==> !p(x)
    ensures Filter(xs, p) == []
  {
    if xs != [] {
      FilterDropsAll(xs[1..], p);
    }
  }

  /** The number of elements satisfying `p`, counted one by one. */
  function CountWhere<T>(xs: seq<T>, p: T -> bool): nat {
    if xs == [] then 0 else (if p(xs[0]) then 1 else 0) + CountWhere(xs[1..], p)
  }

  /** `xs.filter(p).length` counts the elements satisfying `p`. */
  lemma {:induction false} FilterLength<T>(xs: seq<T>, p: T -> bool)
    ensures |Filter(xs, p)| == CountWhere(xs, p)
  {
    if xs != [] {
      FilterLength(xs[1..], p);
    }
  }

  /** A test that holds wherever `p` holds counts at least as many elements. */
  lemma {:induction false} CountWhereMonotone<T>(xs: seq<T>, p: T -> bool, q: T -> bool)
    requires forall x :: x in xs && p(x) ==> q(x)
    ensures CountWhere(xs, p) <= CountWhere(xs, q)
  {
    if xs != [] {
      assert xs[0] in xs;
      CountWhereMonotone(xs[1..], p, q);
    }
  }

  /** Counting one more element adds one exactly when it satisfies `p`. */
  lemma {:induction false} CountWhereSnoc<T>(xs: seq<T>, x: T, p: T -> bool)
    ensures CountWhere(xs + [x], p) == CountWhere(xs, p) + if p(x) then 1 else 0
  {
    if xs == [] {
      assert xs + [x] == [x];
    } else {
      assert (xs + [x])[1..] == xs[1..] + [x];
      CountWhereSnoc(xs[1..], x, p);
    }
  }

  /** `xs.slice(0, n)`: the first `n` elements, or all of them when there are fewer. */
  function Take<T>(xs: seq<T>, n: nat): (r: seq<T>)
    ensures |r| == if |xs| < n then |xs| else n
    ensures r <= xs
  {
    if |xs| <= n then xs else xs[..n]
  }
}
