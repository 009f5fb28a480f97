/** Sequence helpers shared by the table and trash models: a table scan keeps the
    rows of a query in table order, and `fetch()` yields the first of them. */
module Seqs {
  import opened Results

  /** The elements of `s` that satisfy `keep`, in their original order. */
  function Filter<T(!new)>(s: seq<T>, keep: T -> bool): (r: seq<T>)
    ensures |r| <= |s|
    ensures forall x :: x in r <==> x in s && keep(x)
  {
    if s == [] then [] else (if keep(s[0]) then [s[0]] else []) + Filter(s[1..], keep)
  }

  lemma {:induction false} FilterConcat<T(!new)>(a: seq<T>, b: seq<T>, keep: T -> bool)
    ensures Filter(a + b, keep) == Filter(a, keep) + Filter(b, keep)
  {
    if a == [] {
      assert a + b == b;
    } else {
      assert (a + b)[1..] == a[1..] + b;
      FilterConcat(a[1..], b, keep);
    }
  }

  /** Filtering with a predicate that holds of every element changes nothing. */
  lemma {:induction false} FilterAll<T(!new)>(s: seq<T>, keep: T -> bool)
    requires forall x :: x in s ==> keep(x)
    ensures Filter(s, keep) == s
  {
    if s != [] {
      FilterAll(s[1..], keep);
    }
  }

  /** Index of the first element satisfying `p`: what a `fetch()` on a scan returns. */
  function FirstWhere<T>(s: seq<T>, p: T -> bool): (r: Option<nat>)
    ensures r.Some? ==> r.value < |s| && p(s[r.value])
    ensures r.Some? ==> forall j :: 0 <= j < r.value ==> !p(s[j])
    ensures r.None? <==> forall j :: 0 <= j < |s| ==> !p(s[j])
  {
    if s == [] then None
    else if p(s[0]) then Some(0)
    else match FirstWhere(s[1..], p)
      case None => None
      case Some(k) => Some(k + 1)
  }

  /** `k` is the position of the first element satisfying `p`. */
  predicate IsFirst<T>(s: seq<T>, p: T -> bool, k: int) {
    0 <= k < |s| && p(s[k]) && forall j :: 0 <= j < k ==> !p(s[j])
  }

  /** `FirstWhere` finds exactly the first matching position. */
  lemma FirstWhereFinds<T>(s: seq<T>, p: T -> bool, k: int)
    ensures FirstWhere(s, p) == Some(k) <==> IsFirst(s, p, k)
  {
    if IsFirst(s, p, k) {
      var r := FirstWhere(s, p);
      assert r.Some?;
      assert !(r.value < k) && !(k < r.value);
    }
  }

  /** Element-wise image of `s` under `f`, keeping length and order (PHP's `array_map`). */
  function Map<T, U>(s: seq<T>, f: T -> U): (r: seq<U>)
    ensures |r| == |s|
    ensures forall i :: 0 <= i < |s| ==> r[i] == f(s[i])
  {
    if s == [] then [] else [f(s[0])] + Map(s[1..], f)
  }

  /** The images under `f` of the elements `f` accepts, in order: a scan that
      skips the rows it cannot convert. */
  function Collect<T(!new), U(!new)>(s: seq<T>, f: T -> Option<U>): (r: seq<U>)
    ensures |r| <= |s|
    ensures forall y :: y in r <==> exists x :: x in s && f(x) == Some(y)
  {
    if s == [] then []
    else
      var head := Converted(f, s[0]);
      var rest := Collect(s[1..], f);
      assert forall x :: x in s <==> x == s[0] || x in s[1..];
      head + rest
  }

  /** The image of one element: empty when `f` rejects it. */
  function Converted<T, U>(f: T -> Option<U>, x: T): seq<U> {
    match f(x) case Some(y) => [y] case None => []
  }

  /** One step of a scan from position `i`. */
  lemma CollectFrom<T(!new), U(!new)>(s: seq<T>, i: nat, f: T -> Option<U>)
    requires i < |s|
    ensures Collect(s[i..], f) == Converted(f, s[i]) + Collect(s[i + 1..], f)
  {
    assert s[i..][1..] == s[i + 1..];
  }

  /** A scan that has produced `done` from the first `i` elements, and then
      takes the image of element `i`, still ends at the full result. */
  lemma CollectStep<T(!new), U(!new)>(s: seq<T>, i: nat, f: T -> Option<U>, done: seq<U>)
    requires i < |s| && done + Collect(s[i..], f) == Collect(s, f)
    ensures (done + Converted(f, s[i])) + Collect(s[i + 1..], f) == Collect(s, f)
  {
    CollectFrom(s, i, f);
  }

  /** A scan that has consumed every element holds the full result. */
  lemma CollectDone<T(!new), U(!new)>(s: seq<T>, f: T -> Option<U>, done: seq<U>)
    requires done + Collect(s[|s|..], f) == Collect(s, f)
    ensures done == Collect(s, f)
  {
    assert s[|s|..] == [];
  }

  ghost predicate Distinct<T>(s: seq<T>) {
    forall i, j :: 0 <= i < j < |s| ==> s[i] != s[j]
  }

  /** Filtering one more element of a prefix. */
  lemma FilterStep<T(!new)>(s: seq<T>, i: nat, keep: T -> bool)
    requires i < |s|
    ensures Filter(s[..i + 1], keep) == Filter(s[..i], keep) + (if keep(s[i]) then [s[i]] else [])
  {
    assert s[..i + 1] == s[..i] + [s[i]];
    FilterConcat(s[..i], [s[i]], keep);
    assert [s[i]][1..] == [];
  }

  /** The test "differs from `x`". */
  function Unequal<T(==)>(x: T): T -> bool {
    (y: T) => y != x
  }

  /** `s` with every occurrence of `x` taken out. */
  function Without<T(==,!new)>(s: seq<T>, x: T): (r: seq<T>)
    ensures x !in r
    ensures forall y :: y != x ==> (y in r <==> y in s)
  {
    Filter(s, Unequal(x))
  }

  /** Taking out an element that does not occur changes nothing. */
  lemma WithoutAbsent<T(!new)>(s: seq<T>, x: T)
    requires x !in s
    ensures Filter(s, Unequal(x)) == s
  {
    FilterAll(s, Unequal(x));
  }

  lemma WithoutSingle<T(!new)>(x: T)
    ensures Filter([x], Unequal(x)) == []
  {
    assert [x][1..] == [];
  }

  /** Taking out the last element when it occurs nowhere before it. */
  lemma WithoutLast<T(!new)>(a: seq<T>, x: T)
    requires x !in a
    ensures Filter(a + [x], Unequal(x)) == a
  {
    FilterConcat(a, [x], Unequal(x));
    WithoutSingle(x);
    WithoutAbsent(a, x);
  }

  /** Taking out an element that occurs once leaves what surrounds it. */
  lemma WithoutMiddle<T(!new)>(a: seq<T>, x: T, b: seq<T>)
    requires x !in a && x !in b
    ensures Filter(a + [x] + b, Unequal(x)) == a + b
  {
    FilterConcat(a + [x], b, Unequal(x));
    WithoutLast(a, x);
    WithoutAbsent(b, x);
  }

  /** `Without` of an element that occurs once, between `a` and `b`. */
  lemma WithoutBetween<T(!new)>(a: seq<T>, x: T, b: seq<T>)
    requires x !in a && x !in b
    ensures Without(a + ([x] + b), x) == a + b
  {
    assert a + ([x] + b) == a + [x] + b;
    WithoutMiddle(a, x, b);
  }

  /** In a list without repeats, an element occurs neither before nor after its position. */
  lemma DistinctAt<T>(s: seq<T>, i: nat)
    requires Distinct(s) && i < |s|
    ensures s[i] !in s[..i] && s[i] !in s[i + 1..]
  {
    forall j | 0 <= j < i ensures s[..i][j] != s[i] { }
    var after := s[i + 1..];
    forall k | 0 <= k < |after| ensures after[k] != s[i] {
      assert after[k] == s[i + 1 + k];
    }
  }

  lemma WithoutKeepsDistinct<T(!new)>(s: seq<T>, x: T)
    requires Distinct(s)
    ensures Distinct(Without(s, x))
  {
    FilterKeepsDistinct(s, Unequal(x));
  }

  lemma {:induction false} FilterKeepsDistinct<T(!new)>(s: seq<T>, keep: T -> bool)
    requires Distinct(s)
    ensures Distinct(Filter(s, keep))
  {
    if s != [] {
      FilterKeepsDistinct(s[1..], keep);
      var rest := Filter(s[1..], keep);
      assert s[0] !in s[1..] by {
        forall j | 0 <= j < |s[1..]| ensures s[1..][j] != s[0] {
          assert s[1..][j] == s[j + 1];
        }
      }
      assert s[0] !in rest;
    }
  }
}
