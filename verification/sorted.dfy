/** Strictly increasing lists of strings under Python's string order: what
    `sorted(set_of_strings)` returns. */
module SortedStrings {
  import opened Strings
  import opened Collections

  predicate StrictlySorted(xs: seq<string>) {
    forall i, j :: 0 <= i < j < |xs| ==> Less(xs[i], xs[j])
  }

  /** A strictly increasing list repeats nothing. */
  lemma SortedDistinct(xs: seq<string>)
    requires StrictlySorted(xs)
    ensures Distinct(xs)
  {
    forall i, j | 0 <= i < j < |xs| ensures xs[i] != xs[j] {
      if xs[i] == xs[j] {
        LessIrreflexive(xs[i]);
      }
    }
  }

  /** Adds `x` to a strictly increasing list at its place, unless it is already there. */
  function Insert(xs: seq<string>, x: string): (r: seq<string>)
    requires StrictlySorted(xs)
    ensures StrictlySorted(r)
    ensures ToSet(r) == ToSet(xs) + {x}
    ensures forall y :: y in r <==> y in xs || y == x
    decreases |xs|
  {
    if |xs| == 0 then [x]
    else if x == xs[0] then
      assert ToSet(xs) == ToSet(xs) + {x};
      xs
    else if Less(x, xs[0]) then
      var r := [x] + xs;
      assert forall j :: 1 <= j < |r| ==> Less(x, r[j]) by {
        forall j | 1 <= j < |r| ensures Less(x, r[j]) {
          if j > 1 {
            LessTransitive(x, xs[0], r[j]);
          }
        }
      }
      assert ToSet(r) == ToSet(xs) + {x};
      r
    else
      LessTotal(x, xs[0]);
      var rest := Insert(xs[1..], x);
      var r := [xs[0]] + rest;
      assert forall y :: y in rest ==> Less(xs[0], y) by {
        forall y | y in rest ensures Less(xs[0], y) {
          assert y in ToSet(rest);
          if y != x {
            var j :| 1 <= j < |xs| && xs[j] == y;
          }
        }
      }
      assert forall j :: 1 <= j < |r| ==> r[j] in rest by {
        forall j | 1 <= j < |r| ensures r[j] in rest {
          assert r[j] == rest[j - 1];
        }
      }
      assert xs == [xs[0]] + xs[1..];
      assert ToSet(xs) == {xs[0]} + ToSet(xs[1..]);
      assert ToSet(r) == {xs[0]} + ToSet(rest);
      r
  }

  /** The least element of a strictly increasing list comes first. */
  lemma HeadIsLeast(xs: seq<string>, y: string)
    requires StrictlySorted(xs) && y in xs && y != xs[0]
    ensures Less(xs[0], y)
  {
  }

  /** A finite set of strings has exactly one strictly increasing listing. */
  lemma {:induction false} SortedUnique(a: seq<string>, b: seq<string>)
    requires StrictlySorted(a) && StrictlySorted(b)
    requires ToSet(a) == ToSet(b)
    ensures a == b
    decreases |a|
  {
    assert |b| > 0 ==> b[0] in ToSet(b);
    if |a| > 0 {
      assert a[0] in ToSet(b) && b[0] in ToSet(a);
      assert b != [];
      if a[0] != b[0] {
        HeadIsLeast(a, b[0]);
        HeadIsLeast(b, a[0]);
        LessAsymmetric(a[0], b[0]);
      }
      var a', b' := a[1..], b[1..];
      assert ToSet(a') == ToSet(a) - {a[0]} by {
        assert a == [a[0]] + a';
        forall y | y in a' ensures y != a[0] {
          var j :| 0 <= j < |a'| && a'[j] == y;
          assert a[j + 1] == y;
          LessIrreflexive(y);
        }
      }
      assert ToSet(b') == ToSet(b) - {b[0]} by {
        assert b == [b[0]] + b';
        forall y | y in b' ensures y != b[0] {
          var j :| 0 <= j < |b'| && b'[j] == y;
          assert b[j + 1] == y;
          LessIrreflexive(y);
        }
      }
      SortedUnique(a', b');
      assert a == [a[0]] + a' && b == [b[0]] + b';
    }
  }
}
