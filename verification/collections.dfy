/** Python's `set(list)`, list membership and order-preserving filtering, over Dafny sequences. */
module Collections {

  /** Python's `None` or a value. */
  datatype Option<T> = None | Some(value: T)

  /** `set(xs)` */
  function ToSet<T>(xs: seq<T>): set<T> {
    set x | x in xs
  }

  /** No element of `xs` appears twice. */
  predicate Distinct<T(==)>(xs: seq<T>) {
    forall i, j :: 0 <= i < j < |xs| ==> xs[i] != xs[j]
  }

  lemma ToSetCons<T>(xs: seq<T>)
    requires |xs| > 0
    ensures ToSet(xs) == {xs[0]} + ToSet(xs[1..])
  {
    assert xs == [xs[0]] + xs[1..];
  }

  /** A list repeats nothing exactly when its head is not in its tail and its tail
      repeats nothing. */
  lemma DistinctCons<T>(xs: seq<T>)
    requires |xs| > 0
    ensures Distinct(xs) <==> xs[0] !in xs[1..] && Distinct(xs[1..])
  {
    var rest := xs[1..];
    if xs[0] in rest {
      var j :| 0 <= j < |rest| && rest[j] == xs[0];
      assert xs[0] == xs[j + 1];
    }
    if !Distinct(rest) {
      var i, j :| 0 <= i < j < |rest| && rest[i] == rest[j];
      assert xs[i + 1] == xs[j + 1];
    }
    if xs[0] !in rest && Distinct(rest) {
      forall i, j | 0 <= i < j < |xs| ensures xs[i] != xs[j] {
        assert xs[j] == rest[j - 1];
        if i > 0 {
          assert xs[i] == rest[i - 1];
        }
      }
    }
  }

  /** Collapsing a list into a set never adds elements, and loses none exactly when
      the list has no duplicates. */
  lemma {:induction false} ToSetCard<T>(xs: seq<T>)
    ensures |ToSet(xs)| <= |xs|
    ensures Distinct(xs) <==> |ToSet(xs)| == |xs|
    decreases |xs|
  {
    if |xs| > 0 {
      var rest := xs[1..];
      ToSetCard(rest);
      ToSetCons(xs);
      DistinctCons(xs);
      if xs[0] in rest {
        assert ToSet(xs) == ToSet(rest);
      } else {
        assert ToSet(xs) - {xs[0]} == ToSet(rest);
      }
    } else {
      assert ToSet(xs) == {};
    }
  }

  /** `a` is `b` with some elements left out, the rest kept in order. */
  predicate IsSubsequence<T(==)>(a: seq<T>, b: seq<T>)
    decreases |b|
  {
    if |a| == 0 then true
    else if |b| == 0 then false
    else if a[0] == b[0] then IsSubsequence(a[1..], b[1..])
    else IsSubsequence(a, b[1..])
  }

  lemma {:induction false} SubsequenceMembers<T>(a: seq<T>, b: seq<T>)
    requires IsSubsequence(a, b)
    ensures forall x :: x in a ==> x in b
    decreases |b|
  {
    if |a| > 0 && |b| > 0 {
      if a[0] == b[0] {
        SubsequenceMembers(a[1..], b[1..]);
        assert a == [a[0]] + a[1..];
      } else {
        SubsequenceMembers(a, b[1..]);
      }
    }
  }

  lemma {:induction false} SubsequenceConsRight<T>(a: seq<T>, x: T, b: seq<T>)
    requires IsSubsequence(a, b)
    ensures IsSubsequence(a, [x] + b)
    decreases |b|, 1
  {
    if |a| > 0 {
      assert ([x] + b)[1..] == b;
      if a[0] == x {
        SubsequenceDropFirst(a, b);
      }
    }
  }

  lemma {:induction false} SubsequenceDropFirst<T>(a: seq<T>, b: seq<T>)
    requires |a| > 0 && IsSubsequence(a, b)
    ensures IsSubsequence(a[1..], b)
    decreases |b|, 0
  {
    if |b| > 0 {
      if a[0] == b[0] {
        SubsequenceConsRight(a[1..], b[0], b[1..]);
        assert [b[0]] + b[1..] == b;
      } else {
        SubsequenceDropFirst(a, b[1..]);
        SubsequenceConsRight(a[1..], b[0], b[1..]);
        assert [b[0]] + b[1..] == b;
      }
    }
  }

  /** `[x for x in xs if keep(x)]`: an in-order selection of `xs` with one entry per
      passing element, so a passing element that repeats is kept every time. */
  function Filter<T>(xs: seq<T>, keep: T -> bool): (r: seq<T>)
    ensures |r| <= |xs|
    ensures |r| == CountWhere(xs, keep)
    ensures IsSubsequence(r, xs)
    ensures forall k :: 0 <= k < |r| ==> keep(r[k])
    ensures forall x :: x in xs && keep(x) ==> x in r
    decreases |xs|
  {
    if |xs| == 0 then []
    else
      var rest := Filter(xs[1..], keep);
      if keep(xs[0]) then
        assert ([xs[0]] + rest)[1..] == rest;
        [xs[0]] + rest
      else
        SubsequenceConsRight(rest, xs[0], xs[1..]);
        assert [xs[0]] + xs[1..] == xs;
        rest
  }

  /** A filter that keeps every element returns the list unchanged. */
  lemma {:induction false} FilterKeepsAll<T>(xs: seq<T>, keep: T -> bool)
    requires forall k :: 0 <= k < |xs| ==> keep(xs[k])
    ensures Filter(xs, keep) == xs
    decreases |xs|
  {
    if |xs| > 0 {
      FilterKeepsAll(xs[1..], keep);
    }
  }

  /** `[f(x) for x in xs if keep(x)]` holds exactly the images of the passing elements. */
  lemma MapFilterMembers<T, U>(xs: seq<T>, keep: T -> bool, f: T -> U)
    ensures forall y :: y in Map(Filter(xs, keep), f) <==> exists x :: x in xs && keep(x) && y == f(x)
  {
    var kept := Filter(xs, keep);
    var r := Map(kept, f);
    SubsequenceMembers(kept, xs);
    forall y | y in r ensures exists x :: x in xs && keep(x) && y == f(x) {
      var k :| 0 <= k < |r| && r[k] == y;
      assert kept[k] in xs && keep(kept[k]) && y == f(kept[k]);
    }
    forall y | exists x :: x in xs && keep(x) && y == f(x) ensures y in r {
      var x :| x in xs && keep(x) && y == f(x);
      var j :| 0 <= j < |kept| && kept[j] == x;
      assert r[j] == y;
    }
  }

  /** `sum(1 for x in xs if p(x))` */
  function CountWhere<T>(xs: seq<T>, p: T -> bool): (n: nat)
    ensures n <= |xs|
  {
    if |xs| == 0 then 0
    else (if p(xs[0]) then 1 else 0) + CountWhere(xs[1..], p)
  }

  /** Every element counts exactly when each one satisfies `p`. */
  lemma {:induction false} CountWhereAll<T>(xs: seq<T>, p: T -> bool)
    ensures CountWhere(xs, p) == |xs| <==> forall k :: 0 <= k < |xs| ==> p(xs[k])
    decreases |xs|
  {
    if |xs| > 0 {
      var rest := xs[1..];
      CountWhereAll(rest, p);
      if CountWhere(xs, p) == |xs| {
        forall k | 0 <= k < |xs| ensures p(xs[k]) {
          if k > 0 {
            assert xs[k] == rest[k - 1];
          }
        }
      }
      if forall k :: 0 <= k < |xs| ==> p(xs[k]) {
        forall k | 0 <= k < |rest| ensures p(rest[k]) {
          assert rest[k] == xs[k + 1];
        }
      }
    }
  }

  /** Nothing counts exactly when no element satisfies `p`. */
  lemma {:induction false} CountWhereNone<T>(xs: seq<T>, p: T -> bool)
    ensures CountWhere(xs, p) == 0 <==> forall k :: 0 <= k < |xs| ==> !p(xs[k])
    decreases |xs|
  {
    if |xs| > 0 {
      var rest := xs[1..];
      CountWhereNone(rest, p);
      if CountWhere(xs, p) == 0 {
        forall k | 0 <= k < |xs| ensures !p(xs[k]) {
          if k > 0 {
            assert xs[k] == rest[k - 1];
          }
        }
      }
      if forall k :: 0 <= k < |xs| ==> !p(xs[k]) {
        forall k | 0 <= k < |rest| ensures !p(rest[k]) {
          assert rest[k] == xs[k + 1];
        }
      }
    }
  }

  /** A weaker test counts at least as many elements. */
  lemma {:induction false} CountWhereMonotone<T>(xs: seq<T>, p: T -> bool, q: T -> bool)
    requires forall k :: 0 <= k < |xs| && p(xs[k]) ==> q(xs[k])
    ensures CountWhere(xs, p) <= CountWhere(xs, q)
    decreases |xs|
  {
    if |xs| > 0 {
      forall k | 0 <= k < |xs[1..]| && p(xs[1..][k]) ensures q(xs[1..][k]) {
        assert xs[1..][k] == xs[k + 1];
      }
      CountWhereMonotone(xs[1..], p, q);
    }
  }

  /** `[f(x) for x in xs]` */
  function Map<T, U>(xs: seq<T>, f: T -> U): (r: seq<U>)
    ensures |r| == |xs|
    ensures forall k :: 0 <= k < |xs| ==> r[k] == f(xs[k])
  {
    seq(|xs|, k requires 0 <= k < |xs| => f(xs[k]))
  }
}
