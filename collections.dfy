/** The array operations the handlers chain together: `filter`, `map`,
    `Math.max(...xs)` and `slice`. */
module Collections {

  /** `xs.filter(p)`: the elements satisfying `p`, in their original order. */
  function Filter<T(==,!new)>(xs: seq<T>, p: T -> bool): (r: seq<T>)
    ensures |r| <= |xs|
    ensures forall x :: x in r <==> x in xs && p(x)
  {
    if xs == [] then [] else (if p(xs[0]) then [xs[0]] else []) + Filter(xs[1..], p)
  }

  /** Filtering distributes over concatenation, which is what "in order"
      means for a filter. */
  lemma {:induction false} FilterAppend<T(!new)>(a: seq<T>, b: seq<T>, p: T -> bool)
    ensures Filter(a + b, p) == Filter(a, p) + Filter(b, p)
  {
    if a == [] {
      assert a + b == b;
    } else {
      assert (a + b)[1..] == a[1..] + b;
      FilterAppend(a[1..], b, p);
    }
  }

  /** Overwriting one element changes the number of kept elements only by
      what the old and the new element contribute. */
  lemma {:induction false} FilterCountUpdate<T(!new)>(xs: seq<T>, i: nat, x: T, p: T -> bool)
    requires i < |xs|
    ensures |Filter(xs[i := x], p)| ==
            |Filter(xs, p)| - (if p(xs[i]) then 1 else 0) + (if p(x) then 1 else 0)
  {
    if i > 0 {
      assert xs[i := x][1..] == xs[1..][i - 1 := x];
      FilterCountUpdate(xs[1..], i - 1, x, p);
    } else {
      assert xs[i := x][1..] == xs[1..];
    }
  }

  /** Two filters in a row keep what their conjunction keeps, in the same order. */
  lemma {:induction false} FilterFilter<T(!new)>(xs: seq<T>, p: T -> bool, q: T -> bool, both: T -> bool)
    requires forall x :: both(x) == (p(x) && q(x))
    ensures Filter(Filter(xs, p), q) == Filter(xs, both)
  {
    if xs != [] {
      FilterFilter(xs[1..], p, q, both);
      var head := if p(xs[0]) then [xs[0]] else [];
      FilterAppend(head, Filter(xs[1..], p), q);
    }
  }

  /** Filtering with an always-false predicate leaves nothing. */
  lemma FilterNone<T(!new)>(xs: seq<T>, p: T -> bool)
    requires forall x :: x in xs ==> !p(x)
    ensures Filter(xs, p) == []
  {
    if Filter(xs, p) != [] {
      assert Filter(xs, p)[0] in Filter(xs, p);
    }
  }

  /** Filtering with a predicate that holds everywhere keeps the whole list. */
  lemma {:induction false} FilterAll<T(!new)>(xs: seq<T>, p: T -> bool)
    requires forall x :: x in xs ==> p(x)
    ensures Filter(xs, p) == xs
  {
    if xs != [] {
      FilterAll(xs[1..], p);
      assert xs == [xs[0]] + xs[1..];
    }
  }

  /** `xs.map(f)`. */
  function MapSeq<A, B>(xs: seq<A>, f: A -> B): (r: seq<B>)
    ensures |r| == |xs|
    ensures forall i :: 0 <= i < |xs| ==> r[i] == f(xs[i])
  {
    if xs == [] then [] else [f(xs[0])] + MapSeq(xs[1..], f)
  }

  /** `xs.some(p)`. */
  function AnyOf<T(!new)>(xs: seq<T>, p: T -> bool): (b: bool)
    ensures b <==> exists x :: x in xs && p(x)
  {
    if xs == [] then false else p(xs[0]) || AnyOf(xs[1..], p)
  }

  /** `Math.max(...xs)` on a non-empty list. */
  function MaxOf(xs: seq<nat>): (m: nat)
    requires |xs| > 0
    ensures m in xs
    ensures forall x :: x in xs ==> x <= m
  {
    if |xs| == 1 then xs[0]
    else
      var rest := MaxOf(xs[1..]);
      assert forall x :: x in xs ==> x == xs[0] || x in xs[1..];
      if xs[0] >= rest then xs[0] else rest
  }

  function Min(a: int, b: int): int {
    if a <= b then a else b
  }

  /** `xs.slice(start, end)` for `0 <= start <= end`: indices past the end
      are clamped to the length. */
  function Slice<T>(xs: seq<T>, start: nat, end: nat): (r: seq<T>)
    requires start <= end
    ensures |r| == (if start >= |xs| then 0 else Min(end, |xs|) - start)
    ensures |r| <= end - start
    ensures forall i :: 0 <= i < |r| ==> r[i] == xs[start + i]
  {
    xs[Min(start, |xs|)..Min(end, |xs|)]
  }

  /** `page` and `limit` of a list request that leaves them out. */
  const DefaultPage: int := 1
  const DefaultLimit: int := 10

  /** The first index of page `page` (1-based) of `limit` items. With a
      positive limit it is a multiple of the limit from which the page
      number reads back, and the next page starts `limit` further on. */
  function PageStart(page: int, limit: int): (start: nat)
    requires page >= 1 && limit >= 0
    ensures start == (page - 1) * limit
    ensures limit > 0 ==> start % limit == 0 && start / limit + 1 == page
    ensures start + limit == page * limit
  {
    MulNonNegative(page - 1, limit);
    PageOfStart(page - 1, limit);
    (page - 1) * limit
  }

  /** `(k * limit) / limit` is `k` with no remainder. */
  lemma {:induction false} PageOfStart(k: nat, limit: int)
    requires limit >= 0
    ensures limit > 0 ==> (k * limit) % limit == 0 && (k * limit) / limit == k
  {
    if limit > 0 {
      var x := k * limit;
      var q, r := x / limit, x % limit;
      assert x == q * limit + r && 0 <= r < limit;
      assert (k - q) * limit == r;
      if k - q >= 1 {
        MulAtLeast(k - q, limit);
      } else if q - k >= 1 {
        MulAtLeast(q - k, limit);
      }
    }
  }

  lemma {:induction false} MulAtLeast(a: int, b: int)
    requires a >= 1 && b >= 0
    ensures a * b >= b
  {
    if a > 1 {
      MulAtLeast(a - 1, b);
      assert a * b == (a - 1) * b + b;
    }
  }

  lemma MulNonNegative(a: int, b: int)
    requires a >= 0 && b >= 0
    ensures a * b >= 0
  {
  }

  /** `xs.slice((page - 1) * limit, (page - 1) * limit + limit)`. */
  function Page<T>(xs: seq<T>, page: int, limit: int): (r: seq<T>)
    requires page >= 1 && limit >= 0
    ensures |r| <= limit && |r| <= |xs|
    ensures |r| == (if PageStart(page, limit) >= |xs| then 0
                    else Min(limit, |xs| - PageStart(page, limit)))
    ensures forall i :: 0 <= i < |r| ==> PageStart(page, limit) + i < |xs| && r[i] == xs[PageStart(page, limit) + i]
  {
    var start := PageStart(page, limit);
    Slice(xs, start, start + limit)
  }

  /** Paging covers the list: with a positive limit, element `j` is item
      `j % limit` of page `j / limit + 1`. */
  lemma PageCovers<T>(xs: seq<T>, limit: int, j: nat)
    requires limit > 0 && j < |xs|
    ensures j / limit >= 0
    ensures j % limit < |Page(xs, j / limit + 1, limit)|
    ensures Page(xs, j / limit + 1, limit)[j % limit] == xs[j]
  {
    var page := j / limit + 1;
    assert PageStart(page, limit) + j % limit == j;
  }
}
