/** Orderings used by the pipeline's sorts, and `sorted(unique(...))`:
    a sequence turned into the strictly ascending sequence of its
    distinct elements. */
module Order {

  /** Python's `<` on `str`: lexicographic comparison of code points,
      a proper prefix being smaller. */
  predicate StrLess(a: string, b: string)
    decreases |a|
  {
    if |a| == 0 then |b| > 0
    else if |b| == 0 then false
    else if a[0] != b[0] then a[0] < b[0]
    else StrLess(a[1..], b[1..])
  }

  /** The order of parsed dates. */
  predicate IntLess(a: int, b: int)
  {
    a < b
  }

  ghost predicate StrictTotalOrder<T(!new)>(less: (T, T) -> bool)
  {
    && (forall a :: !less(a, a))
    && (forall a, b, c :: less(a, b) && less(b, c) ==> less(a, c))
    && (forall a, b :: a != b ==> less(a, b) || less(b, a))
  }

  ghost predicate StrictlyAscending<T>(s: seq<T>, less: (T, T) -> bool)
  {
    forall i, j :: 0 <= i < j < |s| ==> less(s[i], s[j])
  }

  predicate Distinct<T(==)>(s: seq<T>)
  {
    forall i, j :: 0 <= i < j < |s| ==> s[i] != s[j]
  }

  lemma {:induction false} StrLessIrreflexive(a: string)
    ensures !StrLess(a, a)
    decreases |a|
  {
    if |a| > 0 {
      StrLessIrreflexive(a[1..]);
    }
  }

  lemma {:induction false} StrLessTransitive(a: string, b: string, c: string)
    requires StrLess(a, b) && StrLess(b, c)
    ensures StrLess(a, c)
    decreases |a|
  {
    if |a| > 0 && a[0] == b[0] && b[0] == c[0] {
      StrLessTransitive(a[1..], b[1..], c[1..]);
    }
  }

  lemma {:induction false} StrLessConnected(a: string, b: string)
    requires a != b
    ensures StrLess(a, b) || StrLess(b, a)
    decreases |a|
  {
    if |a| > 0 && |b| > 0 && a[0] == b[0] {
      assert a == [a[0]] + a[1..] && b == [b[0]] + b[1..];
      StrLessConnected(a[1..], b[1..]);
    }
  }

  /** Python orders `str` values totally, so sorting country names is well defined. */
  lemma StrLessIsStrictTotalOrder()
    ensures StrictTotalOrder(StrLess)
  {
    forall a: string
      ensures !StrLess(a, a)
    {
      StrLessIrreflexive(a);
    }
    forall a: string, b: string, c: string | StrLess(a, b) && StrLess(b, c)
      ensures StrLess(a, c)
    {
      StrLessTransitive(a, b, c);
    }
    forall a: string, b: string | a != b
      ensures StrLess(a, b) || StrLess(b, a)
    {
      StrLessConnected(a, b);
    }
  }

  /** `<` on parsed dates is a strict total order, as `SortedUnique` requires. */
  lemma IntLessIsStrictTotalOrder()
    ensures StrictTotalOrder(IntLess)
  {
  }

  /** Adds `x` to a strictly ascending sequence unless it is already there. */
  function InsertUnique<T(==,!new)>(x: T, s: seq<T>, less: (T, T) -> bool): (r: seq<T>)
    requires StrictTotalOrder(less) && StrictlyAscending(s, less)
    ensures StrictlyAscending(r, less)
    ensures forall y :: y in r <==> y == x || y in s
    ensures |r| == if x in s then |s| else |s| + 1
  {
    if s == [] then [x]
    else if x == s[0] then s
    else if less(x, s[0]) then
      assert x !in s by {
        forall k | 0 <= k < |s|
          ensures s[k] != x
        {
          if k > 0 {
            assert less(s[0], s[k]);
          }
        }
      }
      [x] + s
    else
      var rest := InsertUnique(x, s[1..], less);
      assert less(s[0], x);
      assert forall y :: y in rest ==> less(s[0], y);
      [s[0]] + rest
  }

  /** `sorted(set(s))`: the distinct elements of `s`, strictly ascending. */
  function SortedUnique<T(==,!new)>(s: seq<T>, less: (T, T) -> bool): (r: seq<T>)
    requires StrictTotalOrder(less)
    ensures StrictlyAscending(r, less)
    ensures forall y :: y in r <==> y in s
    ensures Distinct(s) ==> |r| == |s|
  {
    if s == [] then []
    else
      var rest := SortedUnique(s[1..], less);
      assert Distinct(s) ==> s[0] !in s[1..];
      InsertUnique(s[0], rest, less)
  }

  /** Gives the solver the witness `s[0]` for `AscendingDetermined`'s base case. */
  lemma NonEmptyHasHead<T>(s: seq<T>)
    ensures s != [] ==> s[0] in s
  {
  }

  lemma HeadIsLeast<T(!new)>(s: seq<T>, y: T, less: (T, T) -> bool)
    requires StrictTotalOrder(less) && StrictlyAscending(s, less)
    requires y in s
    ensures !less(y, s[0])
  {
    var k :| 0 <= k < |s| && s[k] == y;
    if k > 0 {
      assert less(s[0], s[k]);
    }
  }

  /** A strictly ascending sequence is determined by its elements: whichever
      way the distinct values are gathered, sorting them gives one answer. */
  lemma {:induction false} AscendingDetermined<T(!new)>(a: seq<T>, b: seq<T>, less: (T, T) -> bool)
    requires StrictTotalOrder(less)
    requires StrictlyAscending(a, less) && StrictlyAscending(b, less)
    requires forall y :: y in a <==> y in b
    ensures a == b
    decreases |a|
  {
    if a == [] {
      NonEmptyHasHead(b);
    } else {
      assert b != [] by {
        assert a[0] in b;
      }
      HeadIsLeast(b, a[0], less);
      HeadIsLeast(a, b[0], less);
      assert a[0] == b[0];
      forall y
        ensures y in a[1..] <==> y in b[1..]
      {
        if y in a[1..] {
          var k :| 1 <= k < |a| && a[k] == y;
          assert less(a[0], a[k]);
          assert y in b && y != b[0];
        }
        if y in b[1..] {
          var k :| 1 <= k < |b| && b[k] == y;
          assert less(b[0], b[k]);
          assert y in a && y != a[0];
        }
      }
      AscendingDetermined(a[1..], b[1..], less);
      assert a == [a[0]] + a[1..] && b == [b[0]] + b[1..];
    }
  }
}
