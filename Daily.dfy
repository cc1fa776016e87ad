/** `calculate_daily_cases`: a copy of the long table sorted by date, with a
    `Daily` column holding, per country, the difference between a row's
    `Cases` and that of the country's previous row; a country's first row
    has no previous row, and its missing difference is filled with 0. */
module Daily {
  import opened Tables

  // ---------------------------------------------------------------------
  // sort_values('Date')
  // ---------------------------------------------------------------------

  /** Puts `x` into a date-sorted table, before every row dated on or after it. */
  function InsertByDate(x: LongRow, s: seq<LongRow>): (r: seq<LongRow>)
    requires DateSorted(s)
    ensures DateSorted(r)
    ensures multiset(r) == multiset(s) + multiset{x}
    ensures UniqueKeys(s) && (forall k :: 0 <= k < |s| ==> !SameKey(x, s[k])) ==> UniqueKeys(r)
  {
    if s == [] || x.date <= s[0].date then
      PrependSmallest(x, s);
      [x] + s
    else
      TailFacts(x, s);
      var rest := InsertByDate(x, s[1..]);
      InsertAfterHead(x, s, rest);
      HeadMultiset(x, s, rest);
      [s[0]] + rest
  }

  lemma PrependSmallest(x: LongRow, s: seq<LongRow>)
    requires DateSorted(s) && (s == [] || x.date <= s[0].date)
    ensures DateSorted([x] + s)
    ensures UniqueKeys(s) && (forall k :: 0 <= k < |s| ==> !SameKey(x, s[k])) ==> UniqueKeys([x] + s)
  {
    var r := [x] + s;
    assert r[1..] == s;
    forall i, j | 0 <= i < j < |r|
      ensures UniqueKeys(s) && (forall k :: 0 <= k < |s| ==> !SameKey(x, s[k])) ==> !SameKey(r[i], r[j])
    {
      assert r[j] == s[j - 1];
      if i > 0 {
        assert r[i] == s[i - 1];
      }
    }
  }

  lemma HeadMultiset(x: LongRow, s: seq<LongRow>, rest: seq<LongRow>)
    requires s != [] && multiset(rest) == multiset(s[1..]) + multiset{x}
    ensures multiset([s[0]] + rest) == multiset(s) + multiset{x}
  {
    assert s == [s[0]] + s[1..];
  }

  lemma TailFacts(x: LongRow, s: seq<LongRow>)
    requires s != []
    ensures DateSorted(s) ==> DateSorted(s[1..])
    ensures UniqueKeys(s) ==> UniqueKeys(s[1..])
    ensures (forall k :: 0 <= k < |s| ==> !SameKey(x, s[k])) ==> forall k :: 0 <= k < |s[1..]| ==> !SameKey(x, s[1..][k])
  {
  }

  lemma InsertAfterHead(x: LongRow, s: seq<LongRow>, rest: seq<LongRow>)
    requires DateSorted(s) && s != [] && s[0].date < x.date
    requires DateSorted(rest)
    requires multiset(rest) == multiset(s[1..]) + multiset{x}
    requires UniqueKeys(s) && (forall k :: 0 <= k < |s| ==> !SameKey(x, s[k])) ==> UniqueKeys(rest)
    ensures DateSorted([s[0]] + rest)
    ensures UniqueKeys(s) && (forall k :: 0 <= k < |s| ==> !SameKey(x, s[k])) ==> UniqueKeys([s[0]] + rest)
  {
    var r := [s[0]] + rest;
    forall k | 0 <= k < |rest|
      ensures s[0].date <= rest[k].date
      ensures UniqueKeys(s) && !SameKey(x, s[0]) ==> !SameKey(s[0], rest[k])
    {
      assert rest[k] in multiset(rest);
      if rest[k] != x {
        var e :| 0 <= e < |s[1..]| && s[1..][e] == rest[k];
        assert s[e + 1] == rest[k];
        SortedAt(s, 0, e + 1);
      }
    }
    assert r[1..] == rest;
    if UniqueKeys(s) && (forall k :: 0 <= k < |s| ==> !SameKey(x, s[k])) {
      forall i, j | 0 <= i < j < |r|
        ensures !SameKey(r[i], r[j])
      {
        if i > 0 {
          assert r[i] == rest[i - 1] && r[j] == rest[j - 1];
        } else {
          assert r[j] == rest[j - 1];
        }
      }
    }
  }

  /** `df.sort_values('Date')`, rows of equal date kept in table order. */
  function SortByDate(t: seq<LongRow>): (s: seq<LongRow>)
    ensures DateSorted(s)
    ensures multiset(s) == multiset(t)
    ensures UniqueKeys(t) ==> UniqueKeys(s)
  {
    if t == [] then []
    else
      var rest := SortByDate(t[1..]);
      SortStep(t, rest);
      InsertByDate(t[0], rest)
  }

  /** What inserting the head into the sorted tail needs, and gives back. */
  lemma SortStep(t: seq<LongRow>, rest: seq<LongRow>)
    requires t != [] && multiset(rest) == multiset(t[1..])
    requires UniqueKeys(t[1..]) ==> UniqueKeys(rest)
    ensures multiset(rest) + multiset{t[0]} == multiset(t)
    ensures UniqueKeys(t) ==> UniqueKeys(rest) && forall k :: 0 <= k < |rest| ==> !SameKey(t[0], rest[k])
  {
    assert t == [t[0]] + t[1..];
    if UniqueKeys(t) {
      TailFacts(t[0], t);
      forall k | 0 <= k < |rest|
        ensures !SameKey(t[0], rest[k])
      {
        assert rest[k] in multiset(rest);
        var e :| 0 <= e < |t[1..]| && t[1..][e] == rest[k];
        assert t[e + 1] == rest[k];
      }
    }
  }

  // ---------------------------------------------------------------------
  // groupby('Country/Region')['Cases'].diff().fillna(0)
  // ---------------------------------------------------------------------

  /** The last row before position `n` that belongs to country `c`: the row
      a group-wise `diff` subtracts. */
  function LastRowBefore(s: seq<LongRow>, c: Country, n: nat): (p: Option<nat>)
    requires n <= |s|
    ensures p.Some? ==> p.value < n && s[p.value].country == c
    ensures p.Some? ==> forall k :: p.value < k < n ==> s[k].country != c
    ensures p.None? ==> forall k :: 0 <= k < n ==> s[k].country != c
  {
    if n == 0 then None
    else if s[n - 1].country == c then Some(n - 1)
    else LastRowBefore(s, c, n - 1)
  }

  /** Row `i`'s `Cases` minus that of the previous row of its country, or 0
      (the filled NaN) when it is its country's first row. */
  function GroupDiff(s: seq<LongRow>, i: nat): int
    requires i < |s|
  {
    match LastRowBefore(s, s[i].country, i)
    case None => 0
    case Some(p) => s[i].cases - s[p].cases
  }

  /** The table with its `Daily` column. */
  function WithDaily(s: seq<LongRow>): seq<DailyRow>
  {
    seq(|s|, i requires 0 <= i < |s| => DailyRow(s[i].country, s[i].date, s[i].cases, GroupDiff(s, i)))
  }

  /** Adding `Daily` changes no other column and no row order. */
  lemma StripWithDaily(s: seq<LongRow>)
    ensures Strip(WithDaily(s)) == s
  {
  }

  /** `calculate_daily_cases`: the result holds exactly the rows of the input
      (as a multiset, with `Daily` added). The input itself is a value and is
      left as it was. */
  function CalculateDaily(t: seq<LongRow>): (r: seq<DailyRow>)
    ensures |r| == |t|
    ensures multiset(Strip(r)) == multiset(t)
  {
    var s := SortByDate(t);
    StripWithDaily(s);
    assert |multiset(s)| == |multiset(t)|;
    WithDaily(s)
  }

  /** The result of `calculate_daily_cases` is ordered by date, and keeps one
      row per key when the input had one. */
  lemma CalculateDailyOrdered(t: seq<LongRow>)
    ensures DateSorted(Strip(CalculateDaily(t)))
    ensures UniqueKeys(t) ==> UniqueKeys(Strip(CalculateDaily(t)))
  {
    StripWithDaily(SortByDate(t));
  }

  // ---------------------------------------------------------------------
  // What the Daily column means
  // ---------------------------------------------------------------------

  /** In a date-sorted table with one row per key, the previous row of a
      country in table order is its previous row in date order. */
  lemma PrevIsDatePredecessor(s: seq<LongRow>, i: nat)
    requires DateSorted(s) && UniqueKeys(s) && i < |s|
    ensures var c, prev := s[i].country, LastRowBefore(s, s[i].country, i);
      && (prev.None? ==> forall k :: 0 <= k < |s| && s[k].country == c ==> s[i].date <= s[k].date)
      && (prev.Some? ==> s[prev.value].date < s[i].date)
      && (prev.Some? ==> forall k :: 0 <= k < |s| && s[k].country == c ==>
            !(s[prev.value].date < s[k].date < s[i].date))
  {
    var c, prev := s[i].country, LastRowBefore(s, s[i].country, i);
    if prev.Some? {
      var p := prev.value;
      SortedAt(s, p, i);
      assert !SameKey(s[p], s[i]);
      forall k | 0 <= k < |s|
        ensures s[k].country == c ==> !(s[p].date < s[k].date < s[i].date)
      {
        if k < p {
          SortedAt(s, k, p);
        } else if k > i {
          SortedAt(s, i, k);
        }
      }
    } else {
      forall k | 0 <= k < |s|
        ensures s[k].country == c ==> s[i].date <= s[k].date
      {
        if k > i {
          SortedAt(s, i, k);
        }
      }
    }
  }

  /** On a date-sorted table with one row per key, the group-wise difference
      of a row with a previous date is taken against that date's row. */
  lemma GroupDiffIsDatePredecessor(s: seq<LongRow>, i: nat, p: nat)
    requires DateSorted(s) && UniqueKeys(s) && i < |s| && p < |s|
    requires s[p].country == s[i].country && s[p].date < s[i].date
    requires forall k :: 0 <= k < |s| && s[k].country == s[i].country ==> !(s[p].date < s[k].date < s[i].date)
    ensures GroupDiff(s, i) == s[i].cases - s[p].cases
  {
    PrevIsDatePredecessor(s, i);
    var prev := LastRowBefore(s, s[i].country, i);
    assert prev.Some?;
    var q := prev.value;
    assert s[q].date == s[p].date;
    assert SameKey(s[q], s[p]);
  }

  /** The row with a country's earliest date has `Daily` 0. */
  lemma DailyFirstIsZero(t: seq<LongRow>, r: seq<DailyRow>, i: nat)
    requires UniqueKeys(t) && r == CalculateDaily(t)
    requires i < |r|
    requires forall k :: 0 <= k < |r| && r[k].country == r[i].country ==> r[i].date <= r[k].date
    ensures r[i].daily == 0
  {
    var s := SortByDate(t);
    StripWithDaily(s);
    PrevIsDatePredecessor(s, i);
    assert forall k :: 0 <= k < |s| ==> s[k].country == r[k].country && s[k].date == r[k].date;
  }

  /** Every other row's `Daily` is its `Cases` minus the `Cases` of the same
      country at the latest earlier date; decreases are not clamped. */
  lemma DailyIsDifference(t: seq<LongRow>, r: seq<DailyRow>, i: nat, p: nat)
    requires UniqueKeys(t) && r == CalculateDaily(t)
    requires i < |r| && p < |r|
    requires r[p].country == r[i].country && r[p].date < r[i].date
    requires forall k :: 0 <= k < |r| && r[k].country == r[i].country ==> !(r[p].date < r[k].date < r[i].date)
    ensures r[i].daily == r[i].cases - r[p].cases
  {
    var s := SortByDate(t);
    StripWithDaily(s);
    assert forall k :: 0 <= k < |s| ==> s[k].country == r[k].country && s[k].date == r[k].date;
    GroupDiffIsDatePredecessor(s, i, p);
  }

  // ---------------------------------------------------------------------
  // A running sum of Daily gives Cases back
  // ---------------------------------------------------------------------

  /** The sum of `Daily` over the rows of country `c` among the first `n` rows. */
  function DailySum(r: seq<DailyRow>, c: Country, n: nat): int
    requires n <= |r|
  {
    if n == 0 then 0
    else DailySum(r, c, n - 1) + (if r[n - 1].country == c then r[n - 1].daily else 0)
  }

  /** The sum of `Daily` over the rows of country `c` among the first `n`
      rows that are dated `d` or earlier. */
  function DailyUpTo(r: seq<DailyRow>, c: Country, d: Date, n: nat): int
    requires n <= |r|
  {
    if n == 0 then 0
    else DailyUpTo(r, c, d, n - 1) + (if r[n - 1].country == c && r[n - 1].date <= d then r[n - 1].daily else 0)
  }

  lemma {:induction false} SumSkips(r: seq<DailyRow>, c: Country, a: nat, b: nat)
    requires a <= b <= |r|
    requires forall k :: a <= k < b ==> r[k].country != c
    ensures DailySum(r, c, b) == DailySum(r, c, a)
    decreases b
  {
    if b > a {
      SumSkips(r, c, a, b - 1);
    }
  }

  /** Group-wise cumulative sum undoes the group-wise difference, in table
      order: a country's first `Cases` plus the running sum of its `Daily` up
      to row `i` is row `i`'s `Cases`. */
  lemma {:induction false} DailyPrefixSum(s: seq<LongRow>, f: nat, i: nat)
    requires f <= i < |s| && s[f].country == s[i].country
    requires forall k :: 0 <= k < f ==> s[k].country != s[f].country
    ensures s[f].cases + DailySum(WithDaily(s), s[i].country, i + 1) == s[i].cases
    decreases i
  {
    var r, c := WithDaily(s), s[i].country;
    var prev := LastRowBefore(s, c, i);
    if prev.Some? {
      var p := prev.value;
      DailyPrefixSum(s, f, p);
      SumSkips(r, c, p + 1, i);
    } else {
      SumSkips(r, c, 0, i);
    }
  }

  /** Up to row `i` of a date-sorted table, every row is dated on or before
      row `i`, so the two sums agree there. */
  lemma {:induction false} UpToIsPrefixSum(s: seq<LongRow>, i: nat, n: nat)
    requires DateSorted(s) && n <= i + 1 && i < |s|
    ensures DailyUpTo(WithDaily(s), s[i].country, s[i].date, n) == DailySum(WithDaily(s), s[i].country, n)
  {
    if n > 0 {
      UpToIsPrefixSum(s, i, n - 1);
      SortedAt(s, n - 1, i);
    }
  }

  /** Past row `i` of a date-sorted table with one row per key, no row of
      row `i`'s country is dated on or before it. */
  lemma {:induction false} UpToStops(s: seq<LongRow>, i: nat, n: nat)
    requires DateSorted(s) && UniqueKeys(s) && i < n <= |s|
    ensures DailyUpTo(WithDaily(s), s[i].country, s[i].date, n)
         == DailyUpTo(WithDaily(s), s[i].country, s[i].date, i + 1)
  {
    if n > i + 1 {
      UpToStops(s, i, n - 1);
      SortedAt(s, i, n - 1);
      assert !SameKey(s[i], s[n - 1]);
    }
  }

  /** The sum of `Daily` over the rows of country `c` dated `d` or earlier. */
  function DailyThrough(r: seq<DailyRow>, c: Country, d: Date): int
  {
    DailyUpTo(r, c, d, |r|)
  }

  /** On a date-sorted table with one row per key: a country's earliest
      `Cases` plus the sum of its `Daily` through row `i`'s date is row `i`'s
      `Cases`. */
  lemma SortedRoundTrip(s: seq<LongRow>, f: nat, i: nat)
    requires DateSorted(s) && UniqueKeys(s)
    requires f < |s| && i < |s| && s[f].country == s[i].country
    requires forall k :: 0 <= k < |s| && s[k].country == s[f].country ==> s[f].date <= s[k].date
    ensures s[f].cases + DailyThrough(WithDaily(s), s[i].country, s[i].date) == s[i].cases
  {
    forall k | 0 <= k < f
      ensures s[k].country != s[f].country
    {
      SortedAt(s, k, f);
      assert !SameKey(s[k], s[f]);
    }
    DailyPrefixSum(s, f, i);
    UpToIsPrefixSum(s, i, i + 1);
    UpToStops(s, i, |s|);
  }

  /** `calculate_daily_cases` loses nothing: adding up a country's `Daily`
      through any of its dates, on top of its earliest `Cases`, gives its
      `Cases` at that date. */
  lemma DailyRoundTrip(t: seq<LongRow>, r: seq<DailyRow>, f: nat, i: nat)
    requires UniqueKeys(t) && r == CalculateDaily(t)
    requires f < |r| && i < |r| && r[f].country == r[i].country
    requires forall k :: 0 <= k < |r| && r[k].country == r[f].country ==> r[f].date <= r[k].date
    ensures r[f].cases + DailyThrough(r, r[i].country, r[i].date) == r[i].cases
  {
    var s := SortByDate(t);
    assert r == WithDaily(s);
    forall k | 0 <= k < |s| && s[k].country == s[f].country
      ensures s[f].date <= s[k].date
    {
      assert r[k].country == s[k].country && r[k].date == s[k].date;
    }
    SortedRoundTrip(s, f, i);
  }
}
