/** `process_data`: the wide table is melted into one row per (raw row,
    date), the rows are grouped by (country, date) and summed, and the
    sorted list of distinct countries is returned beside the long table. */
module Reshape {
  import opened Tables
  import opened Order

  // ---------------------------------------------------------------------
  // melt
  // ---------------------------------------------------------------------

  /** The melted row of raw row `r` for date column `j`, headed `d`. */
  function MeltCell(r: RawRow, j: nat, d: Date): MeltedRow
    requires j < |r.counts|
  {
    MeltedRow(r.province, r.country, r.lat, r.long, d, r.counts[j])
  }

  /** The rows `melt` produces for date column `j`: one per raw row, in row order. */
  function MeltColumn(rows: seq<RawRow>, j: nat, d: Date): (m: seq<MeltedRow>)
    requires forall i :: 0 <= i < |rows| ==> j < |rows[i].counts|
    ensures |m| == |rows|
  {
    if rows == [] then []
    else [MeltCell(rows[0], j, d)] + MeltColumn(rows[1..], j, d)
  }

  /** The melted rows of date columns `j` onwards, column after column. */
  function MeltFrom(t: RawTable, j: nat): seq<MeltedRow>
    requires Rectangular(t) && j <= |t.dates|
    decreases |t.dates| - j
  {
    if j == |t.dates| then []
    else MeltColumn(t.rows, j, t.dates[j]) + MeltFrom(t, j + 1)
  }

  /** `df.melt(id_vars=['Province/State', 'Country/Region', 'Lat', 'Long'],
      var_name='Date', value_name='Cases')`. */
  function Melt(t: RawTable): (m: seq<MeltedRow>)
    requires Rectangular(t)
    ensures |m| == |t.dates| * |t.rows|
  {
    MeltFromLength(t, 0);
    OffsetIsProduct(|t.dates|, |t.rows|);
    MeltFrom(t, 0)
  }

  lemma {:induction false} MeltColumnAt(rows: seq<RawRow>, j: nat, d: Date, i: nat)
    requires forall i :: 0 <= i < |rows| ==> j < |rows[i].counts|
    requires i < |rows|
    ensures MeltColumn(rows, j, d)[i] == MeltCell(rows[i], j, d)
    decreases i
  {
    if i > 0 {
      MeltColumnAt(rows[1..], j, d, i - 1);
    }
  }

  /** The start of block `q` when blocks are `n` long: `q * n`, kept linear. */
  function Offset(q: nat, n: nat): nat
  {
    if q == 0 then 0 else n + Offset(q - 1, n)
  }

  lemma {:induction false} OffsetIsProduct(q: nat, n: nat)
    ensures Offset(q, n) == q * n
  {
    if q > 0 {
      OffsetIsProduct(q - 1, n);
    }
  }

  lemma {:induction false} OffsetInside(q: nat, i: nat, n: nat, blocks: nat)
    requires q < blocks && i < n
    ensures Offset(q, n) + i < Offset(blocks, n)
    decreases blocks
  {
    if q < blocks - 1 {
      OffsetInside(q, i, n, blocks - 1);
    }
  }

  lemma {:induction false} MeltFromLength(t: RawTable, j0: nat)
    requires Rectangular(t) && j0 <= |t.dates|
    ensures |MeltFrom(t, j0)| == Offset(|t.dates| - j0, |t.rows|)
    decreases |t.dates| - j0
  {
    if j0 < |t.dates| {
      MeltFromLength(t, j0 + 1);
    }
  }

  lemma {:induction false} MeltFromAt(t: RawTable, j0: nat, j: nat, i: nat)
    requires Rectangular(t) && j0 <= j < |t.dates| && i < |t.rows|
    ensures Offset(j - j0, |t.rows|) + i < |MeltFrom(t, j0)|
    ensures MeltFrom(t, j0)[Offset(j - j0, |t.rows|) + i] == MeltCell(t.rows[i], j, t.dates[j])
    decreases j - j0
  {
    var rs := |t.rows|;
    var col, rest := MeltColumn(t.rows, j0, t.dates[j0]), MeltFrom(t, j0 + 1);
    assert MeltFrom(t, j0) == col + rest;
    MeltFromLength(t, j0);
    OffsetInside(j - j0, i, rs, |t.dates| - j0);
    if j == j0 {
      MeltColumnAt(t.rows, j0, t.dates[j0], i);
      assert (col + rest)[i] == col[i];
    } else {
      MeltFromAt(t, j0 + 1, j, i);
      assert Offset(j - j0, rs) == rs + Offset(j - (j0 + 1), rs);
    }
  }

  /** The melted table is column-major: row `i` of date column `j` sits at
      `j * |rows| + i`, carrying the raw row's identifying columns, the
      column's date and the row's count at that date. */
  lemma MeltAt(t: RawTable, j: nat, i: nat)
    requires Rectangular(t)
    requires j < |t.dates| && i < |t.rows|
    ensures j * |t.rows| + i < |Melt(t)|
    ensures Melt(t)[j * |t.rows| + i] == MeltCell(t.rows[i], j, t.dates[j])
  {
    MeltFromAt(t, 0, j, i);
    OffsetIsProduct(j, |t.rows|);
  }

  // ---------------------------------------------------------------------
  // groupby(['Country/Region', 'Date'])['Cases'].sum().reset_index()
  // ---------------------------------------------------------------------

  /** The columns the group-by reads: `Country/Region`, `Date`, `Cases`. */
  function Project(m: seq<MeltedRow>): seq<LongRow>
  {
    seq(|m|, k requires 0 <= k < |m| => LongRow(m[k].country, m[k].date, m[k].cases))
  }

  function Countries(s: seq<LongRow>): seq<Country>
  {
    seq(|s|, k requires 0 <= k < |s| => s[k].country)
  }

  function Dates(s: seq<LongRow>): seq<Date>
  {
    seq(|s|, k requires 0 <= k < |s| => s[k].date)
  }

  /** Some row of `s` has key (`c`, `d`). */
  predicate Occurs(s: seq<LongRow>, c: Country, d: Date)
  {
    exists k :: 0 <= k < |s| && s[k].country == c && s[k].date == d
  }

  /** The sum of `Cases` over the rows of `s` keyed (`c`, `d`). */
  function SumCases(s: seq<LongRow>, c: Country, d: Date): int
  {
    if s == [] then 0
    else (if s[0].country == c && s[0].date == d then s[0].cases else 0) + SumCases(s[1..], c, d)
  }

  /** The order of the group-by's result: by country, then by date. */
  predicate KeyLess(a: LongRow, b: LongRow)
  {
    StrLess(a.country, b.country) || (a.country == b.country && a.date < b.date)
  }

  ghost predicate KeysAscending(s: seq<LongRow>)
  {
    forall i, j :: 0 <= i < j < |s| ==> KeyLess(s[i], s[j])
  }

  /** `g` is the group-by's result for country `c` over the dates `ds`: one
      row per date of `ds` at which `c` has rows, in date order, each
      carrying the sum of that key's `Cases`. */
  predicate DateGroups(m: seq<LongRow>, c: Country, ds: seq<Date>, g: seq<LongRow>)
  {
    && (forall k :: 0 <= k < |g| ==>
      g[k].country == c && g[k].date in ds && Occurs(m, c, g[k].date) && g[k].cases == SumCases(m, c, g[k].date))
    && (forall i, j :: 0 <= i < j < |g| ==> g[i].date < g[j].date)
    && (forall d :: d in ds && Occurs(m, c, d) ==> exists k :: 0 <= k < |g| && g[k].date == d)
    && ((forall d :: d in ds ==> Occurs(m, c, d)) ==> |g| == |ds|)
  }

  /** The groups of country `c`, one per date of `ds` at which `c` has rows. */
  function GroupDates(m: seq<LongRow>, c: Country, ds: seq<Date>): (g: seq<LongRow>)
    requires StrictlyAscending(ds, IntLess)
    ensures DateGroups(m, c, ds, g)
  {
    if ds == [] then []
    else
      var head := if Occurs(m, c, ds[0]) then [LongRow(c, ds[0], SumCases(m, c, ds[0]))] else [];
      var rest := GroupDates(m, c, ds[1..]);
      GroupDatesStep(m, c, ds, head, rest);
      head + rest
  }

  /** The group of the first date, if any, followed by the groups of the later dates. */
  lemma GroupDatesStep(m: seq<LongRow>, c: Country, ds: seq<Date>, head: seq<LongRow>, rest: seq<LongRow>)
    requires StrictlyAscending(ds, IntLess) && ds != []
    requires head == if Occurs(m, c, ds[0]) then [LongRow(c, ds[0], SumCases(m, c, ds[0]))] else []
    requires DateGroups(m, c, ds[1..], rest)
    ensures DateGroups(m, c, ds, head + rest)
  {
    LaterDatesAfterHead(ds, rest);
    var g := head + rest;
    forall k | 0 <= k < |g|
      ensures g[k].country == c && g[k].date in ds && Occurs(m, c, g[k].date) && g[k].cases == SumCases(m, c, g[k].date)
    {
      if k >= |head| {
        assert g[k] == rest[k - |head|];
      }
    }
    DatesAfterHead(ds[0], head, rest);
    HeadCovers(m, c, ds, head, rest);
    if forall d :: d in ds ==> Occurs(m, c, d) {
      assert Occurs(m, c, ds[0]);
    }
  }

  /** A group dated `d0`, if any, followed by later groups in date order, is in date order. */
  lemma DatesAfterHead(d0: Date, head: seq<LongRow>, rest: seq<LongRow>)
    requires |head| <= 1 && forall k :: 0 <= k < |head| ==> head[k].date == d0
    requires forall k :: 0 <= k < |rest| ==> d0 < rest[k].date
    requires forall i, j :: 0 <= i < j < |rest| ==> rest[i].date < rest[j].date
    ensures forall i, j :: 0 <= i < j < |head + rest| ==> (head + rest)[i].date < (head + rest)[j].date
  {
    var g := head + rest;
    forall i, j | 0 <= i < j < |g|
      ensures g[i].date < g[j].date
    {
      assert g[j] == rest[j - |head|];
      if i >= |head| {
        assert g[i] == rest[i - |head|];
      } else {
        assert g[i] == head[0];
      }
    }
  }

  lemma LaterDatesAfterHead(ds: seq<Date>, rest: seq<LongRow>)
    requires StrictlyAscending(ds, IntLess) && ds != []
    requires forall k :: 0 <= k < |rest| ==> rest[k].date in ds[1..]
    ensures forall k :: 0 <= k < |rest| ==> ds[0] < rest[k].date
  {
    forall k | 0 <= k < |rest|
      ensures ds[0] < rest[k].date
    {
      var tail := ds[1..];
      var e :| 0 <= e < |tail| && tail[e] == rest[k].date;
      assert IntLess(ds[0], ds[e + 1]);
    }
  }

  lemma HeadCovers(m: seq<LongRow>, c: Country, ds: seq<Date>, head: seq<LongRow>, rest: seq<LongRow>)
    requires ds != []
    requires head == if Occurs(m, c, ds[0]) then [LongRow(c, ds[0], SumCases(m, c, ds[0]))] else []
    requires forall d :: d in ds[1..] && Occurs(m, c, d) ==> exists k :: 0 <= k < |rest| && rest[k].date == d
    ensures var g := head + rest;
      forall d :: d in ds && Occurs(m, c, d) ==> exists k :: 0 <= k < |g| && g[k].date == d
  {
    var g := head + rest;
    forall d | d in ds && Occurs(m, c, d)
      ensures exists k :: 0 <= k < |g| && g[k].date == d
    {
      if d == ds[0] {
        assert g[0].date == d;
      } else {
        assert d in ds[1..];
        var k :| 0 <= k < |rest| && rest[k].date == d;
        assert g[|head| + k] == rest[k];
      }
    }
  }

  /** `g` is the group-by's result for the countries `cs` and the dates
      `ds`: every row is a key of `cs` and `ds` present in `m`, carrying the
      sum of that key's `Cases`; the rows are in (country, date) order; and
      every such key present in `m` has a row. */
  ghost predicate CountryGroups(m: seq<LongRow>, cs: seq<Country>, ds: seq<Date>, g: seq<LongRow>)
  {
    && (forall k :: 0 <= k < |g| ==>
      g[k].country in cs && g[k].date in ds && Occurs(m, g[k].country, g[k].date)
      && g[k].cases == SumCases(m, g[k].country, g[k].date))
    && KeysAscending(g)
    && (forall c, d :: c in cs && d in ds && Occurs(m, c, d) ==>
      exists k :: 0 <= k < |g| && g[k].country == c && g[k].date == d)
  }

  /** The groups of every country of `cs` in turn. */
  function GroupCountries(m: seq<LongRow>, cs: seq<Country>, ds: seq<Date>): (g: seq<LongRow>)
    requires StrictlyAscending(cs, StrLess) && StrictlyAscending(ds, IntLess)
    ensures CountryGroups(m, cs, ds, g)
  {
    if cs == [] then []
    else
      var first, rest := GroupDates(m, cs[0], ds), GroupCountries(m, cs[1..], ds);
      GroupCountriesStep(m, cs, ds, first, rest);
      first + rest
  }

  /** The groups of the first country followed by those of the later countries. */
  lemma GroupCountriesStep(m: seq<LongRow>, cs: seq<Country>, ds: seq<Date>, first: seq<LongRow>, rest: seq<LongRow>)
    requires StrictlyAscending(cs, StrLess) && StrictlyAscending(ds, IntLess) && cs != []
    requires first == GroupDates(m, cs[0], ds)
    requires CountryGroups(m, cs[1..], ds, rest)
    ensures CountryGroups(m, cs, ds, first + rest)
  {
    ConcatGroupRows(m, cs, ds, first, rest);
    HeadCountryFirst(cs, rest);
    ConcatAscending(cs[0], first, rest);
    ConcatCovers(m, cs, ds, first, rest);
  }

  lemma ConcatGroupRows(m: seq<LongRow>, cs: seq<Country>, ds: seq<Date>, first: seq<LongRow>, rest: seq<LongRow>)
    requires cs != []
    requires forall k :: 0 <= k < |first| ==>
      first[k].country == cs[0] && first[k].date in ds && Occurs(m, cs[0], first[k].date)
      && first[k].cases == SumCases(m, cs[0], first[k].date)
    requires forall k :: 0 <= k < |rest| ==>
      rest[k].country in cs[1..] && rest[k].date in ds && Occurs(m, rest[k].country, rest[k].date)
      && rest[k].cases == SumCases(m, rest[k].country, rest[k].date)
    ensures var g := first + rest;
      forall k :: 0 <= k < |g| ==>
        g[k].country in cs && g[k].date in ds && Occurs(m, g[k].country, g[k].date)
        && g[k].cases == SumCases(m, g[k].country, g[k].date)
  {
    var g := first + rest;
    forall k | 0 <= k < |g|
      ensures g[k].country in cs && g[k].date in ds && Occurs(m, g[k].country, g[k].date)
        && g[k].cases == SumCases(m, g[k].country, g[k].date)
    {
      if k >= |first| {
        assert g[k] == rest[k - |first|];
      } else {
        assert g[k] == first[k];
      }
    }
  }

  lemma HeadCountryFirst(cs: seq<Country>, rest: seq<LongRow>)
    requires StrictlyAscending(cs, StrLess) && cs != []
    requires forall k :: 0 <= k < |rest| ==> rest[k].country in cs[1..]
    ensures forall k :: 0 <= k < |rest| ==> StrLess(cs[0], rest[k].country)
  {
    forall k | 0 <= k < |rest|
      ensures StrLess(cs[0], rest[k].country)
    {
      var tail := cs[1..];
      var e :| 0 <= e < |tail| && tail[e] == rest[k].country;
      assert cs[e + 1] == tail[e];
      assert StrLess(cs[0], cs[e + 1]);
    }
  }

  lemma ConcatCovers(m: seq<LongRow>, cs: seq<Country>, ds: seq<Date>, first: seq<LongRow>, rest: seq<LongRow>)
    requires cs != []
    requires forall d :: d in ds && Occurs(m, cs[0], d) ==> exists k :: 0 <= k < |first| && first[k].date == d
    requires forall k :: 0 <= k < |first| ==> first[k].country == cs[0]
    requires forall c, d :: c in cs[1..] && d in ds && Occurs(m, c, d) ==>
      exists k :: 0 <= k < |rest| && rest[k].country == c && rest[k].date == d
    ensures var g := first + rest;
      forall c, d :: c in cs && d in ds && Occurs(m, c, d) ==>
        exists k :: 0 <= k < |g| && g[k].country == c && g[k].date == d
  {
    var g := first + rest;
    forall c, d | c in cs && d in ds && Occurs(m, c, d)
      ensures exists k :: 0 <= k < |g| && g[k].country == c && g[k].date == d
    {
      if c == cs[0] {
        var k :| 0 <= k < |first| && first[k].date == d;
        assert g[k] == first[k];
      } else {
        assert c in cs[1..];
        var k :| 0 <= k < |rest| && rest[k].country == c && rest[k].date == d;
        assert g[|first| + k] == rest[k];
      }
    }
  }

  /** The groups of one country followed by the groups of later countries
      stay in (country, date) order. */
  lemma ConcatAscending(c: Country, first: seq<LongRow>, rest: seq<LongRow>)
    requires forall k :: 0 <= k < |first| ==> first[k].country == c
    requires forall i, j :: 0 <= i < j < |first| ==> first[i].date < first[j].date
    requires forall k :: 0 <= k < |rest| ==> StrLess(c, rest[k].country)
    requires KeysAscending(rest)
    ensures KeysAscending(first + rest)
  {
    var g := first + rest;
    forall i, j | 0 <= i < j < |g|
      ensures KeyLess(g[i], g[j])
    {
      if j < |first| {
        assert g[i] == first[i] && g[j] == first[j];
      } else if i < |first| {
        assert g[i] == first[i] && g[j] == rest[j - |first|];
      } else {
        assert g[i] == rest[i - |first|] && g[j] == rest[j - |first|];
      }
    }
  }

  lemma KeysInColumns(m: seq<LongRow>, c: Country, d: Date)
    requires Occurs(m, c, d)
    ensures c in Countries(m) && d in Dates(m)
  {
    var k :| 0 <= k < |m| && m[k].country == c && m[k].date == d;
    assert Countries(m)[k] == c && Dates(m)[k] == d;
  }

  /** `groupby(['Country/Region', 'Date'])['Cases'].sum().reset_index()`:
      the groups are the (country, date) keys present, sorted by country and
      then date, each carrying its rows' summed `Cases`. */
  function GroupSum(m: seq<LongRow>): (g: seq<LongRow>)
    ensures KeysAscending(g)
    ensures forall k :: 0 <= k < |g| ==>
      Occurs(m, g[k].country, g[k].date) && g[k].cases == SumCases(m, g[k].country, g[k].date)
    ensures forall c, d :: Occurs(m, c, d) ==>
      exists k :: 0 <= k < |g| && g[k].country == c && g[k].date == d
  {
    StrLessIsStrictTotalOrder();
    IntLessIsStrictTotalOrder();
    assert forall c, d :: Occurs(m, c, d) ==> c in Countries(m) && d in Dates(m) by {
      forall c, d | Occurs(m, c, d)
        ensures c in Countries(m) && d in Dates(m)
      {
        KeysInColumns(m, c, d);
      }
    }
    GroupCountries(m, SortedUnique(Countries(m), StrLess), SortedUnique(Dates(m), IntLess))
  }

  /** `process_data`: the long table and `sorted(df_country['Country/Region'].unique())`. */
  function ProcessData(t: RawTable): (r: (seq<LongRow>, seq<Country>))
    requires Rectangular(t)
  {
    var long := GroupSum(Project(Melt(t)));
    StrLessIsStrictTotalOrder();
    (long, SortedUnique(Countries(long), StrLess))
  }

  // ---------------------------------------------------------------------
  // What the reshape computes, stated against the wide table
  // ---------------------------------------------------------------------

  /** The sum, over the raw rows of country `c`, of their count in date column `j`. */
  function ColumnTotal(rows: seq<RawRow>, c: Country, j: nat): int
    requires forall i :: 0 <= i < |rows| ==> j < |rows[i].counts|
  {
    if rows == [] then 0
    else (if rows[0].country == c then rows[0].counts[j] else 0) + ColumnTotal(rows[1..], c, j)
  }

  /** The number of rows of `s` that belong to country `c`. */
  function CountryRows(s: seq<LongRow>, c: Country): nat
  {
    if s == [] then 0
    else (if s[0].country == c then 1 else 0) + CountryRows(s[1..], c)
  }

  lemma ProjectConcat(a: seq<MeltedRow>, b: seq<MeltedRow>)
    ensures Project(a + b) == Project(a) + Project(b)
  {
    assert forall k :: 0 <= k < |a + b| ==> Project(a + b)[k] == (Project(a) + Project(b))[k];
  }

  lemma ProjectMeltColumn(rows: seq<RawRow>, j: nat, d: Date)
    requires forall i :: 0 <= i < |rows| ==> j < |rows[i].counts|
    requires rows != []
    ensures Project(MeltColumn(rows, j, d))
      == [LongRow(rows[0].country, d, rows[0].counts[j])] + Project(MeltColumn(rows[1..], j, d))
  {
    ProjectConcat([MeltCell(rows[0], j, d)], MeltColumn(rows[1..], j, d));
  }

  lemma {:induction false} SumCasesConcat(a: seq<LongRow>, b: seq<LongRow>, c: Country, d: Date)
    ensures SumCases(a + b, c, d) == SumCases(a, c, d) + SumCases(b, c, d)
    decreases |a|
  {
    if a != [] {
      assert (a + b)[1..] == a[1..] + b;
      SumCasesConcat(a[1..], b, c, d);
    } else {
      assert a + b == b;
    }
  }

  lemma {:induction false} SumMeltColumn(rows: seq<RawRow>, j: nat, d': Date, c: Country, d: Date)
    requires forall i :: 0 <= i < |rows| ==> j < |rows[i].counts|
    ensures SumCases(Project(MeltColumn(rows, j, d')), c, d) == if d' == d then ColumnTotal(rows, c, j) else 0
    decreases |rows|
  {
    if rows != [] {
      ProjectMeltColumn(rows, j, d');
      var x, rest := LongRow(rows[0].country, d', rows[0].counts[j]), Project(MeltColumn(rows[1..], j, d'));
      assert ([x] + rest)[1..] == rest;
      SumMeltColumn(rows[1..], j, d', c, d);
    }
  }

  lemma {:induction false} SumMeltFrom(t: RawTable, j0: nat, c: Country, j: nat)
    requires Rectangular(t) && Distinct(t.dates) && j0 <= |t.dates| && j < |t.dates|
    ensures SumCases(Project(MeltFrom(t, j0)), c, t.dates[j]) == if j0 <= j then ColumnTotal(t.rows, c, j) else 0
    decreases |t.dates| - j0
  {
    if j0 < |t.dates| {
      var col, rest := MeltColumn(t.rows, j0, t.dates[j0]), MeltFrom(t, j0 + 1);
      ProjectConcat(col, rest);
      SumCasesConcat(Project(col), Project(rest), c, t.dates[j]);
      SumMeltColumn(t.rows, j0, t.dates[j0], c, t.dates[j]);
      SumMeltFrom(t, j0 + 1, c, j);
      assert t.dates[j0] == t.dates[j] <==> j0 == j;
    }
  }

  lemma OccursConcat(a: seq<LongRow>, b: seq<LongRow>, c: Country, d: Date)
    ensures Occurs(a + b, c, d) <==> Occurs(a, c, d) || Occurs(b, c, d)
  {
    if Occurs(a + b, c, d) {
      var k :| 0 <= k < |a + b| && (a + b)[k].country == c && (a + b)[k].date == d;
      if k >= |a| {
        assert b[k - |a|] == (a + b)[k];
      }
    }
    if Occurs(a, c, d) {
      var k :| 0 <= k < |a| && a[k].country == c && a[k].date == d;
      assert (a + b)[k] == a[k];
    }
    if Occurs(b, c, d) {
      var k :| 0 <= k < |b| && b[k].country == c && b[k].date == d;
      assert (a + b)[|a| + k] == b[k];
    }
  }

  lemma OccursMeltColumn(rows: seq<RawRow>, j: nat, d': Date, c: Country, d: Date)
    requires forall i :: 0 <= i < |rows| ==> j < |rows[i].counts|
    ensures Occurs(Project(MeltColumn(rows, j, d')), c, d)
      <==> d' == d && exists i :: 0 <= i < |rows| && rows[i].country == c
  {
    var p := Project(MeltColumn(rows, j, d'));
    forall i | 0 <= i < |rows|
      ensures p[i].country == rows[i].country && p[i].date == d'
    {
      MeltColumnAt(rows, j, d', i);
    }
  }

  lemma {:induction false} OccursMeltFrom(t: RawTable, j0: nat, c: Country, d: Date)
    requires Rectangular(t) && j0 <= |t.dates|
    ensures Occurs(Project(MeltFrom(t, j0)), c, d) <==> HasCountry(t, c) && d in t.dates[j0..]
    decreases |t.dates| - j0
  {
    if j0 < |t.dates| {
      var col, rest := MeltColumn(t.rows, j0, t.dates[j0]), MeltFrom(t, j0 + 1);
      ProjectConcat(col, rest);
      OccursConcat(Project(col), Project(rest), c, d);
      OccursMeltColumn(t.rows, j0, t.dates[j0], c, d);
      OccursMeltFrom(t, j0 + 1, c, d);
      assert t.dates[j0..] == [t.dates[j0]] + t.dates[j0 + 1..];
    }
  }

  /** The melted table has a row keyed (`c`, `d`) exactly when some raw row
      belongs to `c` and `d` heads a date column. */
  lemma OccursMelt(t: RawTable, c: Country, d: Date)
    requires Rectangular(t)
    ensures Occurs(Project(Melt(t)), c, d) <==> HasCountry(t, c) && d in t.dates
  {
    OccursMeltFrom(t, 0, c, d);
    assert t.dates[0..] == t.dates;
  }

  lemma AscendingKeysUnique(g: seq<LongRow>)
    requires KeysAscending(g)
    ensures UniqueKeys(g)
  {
    forall i, j | 0 <= i < j < |g|
      ensures !SameKey(g[i], g[j])
    {
      StrLessIrreflexive(g[i].country);
    }
  }

  /** After the reshape there is exactly one row for each country of the raw
      table and each date column, and no other row. */
  lemma ReshapeKeys(t: RawTable)
    requires Rectangular(t)
    ensures var long := ProcessData(t).0;
      && (forall k :: 0 <= k < |long| ==> HasCountry(t, long[k].country) && long[k].date in t.dates)
      && (forall c, d :: HasCountry(t, c) && d in t.dates ==>
            exists k :: 0 <= k < |long| && long[k].country == c && long[k].date == d)
      && UniqueKeys(long)
  {
    var m := Project(Melt(t));
    var long := ProcessData(t).0;
    assert long == GroupSum(m);
    forall k | 0 <= k < |long|
      ensures HasCountry(t, long[k].country) && long[k].date in t.dates
    {
      OccursMelt(t, long[k].country, long[k].date);
    }
    forall c, d | HasCountry(t, c) && d in t.dates
      ensures exists k :: 0 <= k < |long| && long[k].country == c && long[k].date == d
    {
      OccursMelt(t, c, d);
    }
    AscendingKeysUnique(long);
  }

  /** With distinct date columns, the value at (`c`, date of column `j`) is the
      sum of column `j` over the raw rows of `c`: sub-national rows are added
      up, and nothing else enters the sum. */
  lemma ReshapeValues(t: RawTable, j: nat)
    requires Rectangular(t) && Distinct(t.dates) && j < |t.dates|
    ensures var long := ProcessData(t).0;
      forall k :: 0 <= k < |long| && long[k].date == t.dates[j] ==>
        long[k].cases == ColumnTotal(t.rows, long[k].country, j)
  {
    var m := Project(Melt(t));
    var long := ProcessData(t).0;
    assert long == GroupSum(m);
    GroupedColumnTotals(t, j, long);
  }

  /** Any rows whose `Cases` are the melted sums at their keys hold, at the
      date of column `j`, the column totals. */
  lemma GroupedColumnTotals(t: RawTable, j: nat, g: seq<LongRow>)
    requires Rectangular(t) && Distinct(t.dates) && j < |t.dates|
    requires forall k :: 0 <= k < |g| ==> g[k].cases == SumCases(Project(Melt(t)), g[k].country, g[k].date)
    ensures forall k :: 0 <= k < |g| && g[k].date == t.dates[j] ==>
      g[k].cases == ColumnTotal(t.rows, g[k].country, j)
  {
    forall k | 0 <= k < |g| && g[k].date == t.dates[j]
      ensures g[k].cases == ColumnTotal(t.rows, g[k].country, j)
    {
      SumMeltFrom(t, 0, g[k].country, j);
    }
  }

  lemma {:induction false} CountryRowsConcat(a: seq<LongRow>, b: seq<LongRow>, c: Country)
    ensures CountryRows(a + b, c) == CountryRows(a, c) + CountryRows(b, c)
    decreases |a|
  {
    if a != [] {
      assert (a + b)[1..] == a[1..] + b;
      CountryRowsConcat(a[1..], b, c);
    } else {
      assert a + b == b;
    }
  }

  lemma {:induction false} CountryRowsUniform(s: seq<LongRow>, c': Country, c: Country)
    requires forall k :: 0 <= k < |s| ==> s[k].country == c'
    ensures CountryRows(s, c) == if c == c' then |s| else 0
    decreases |s|
  {
    if s != [] {
      CountryRowsUniform(s[1..], c', c);
    }
  }

  lemma {:induction false} CountGroupCountries(m: seq<LongRow>, cs: seq<Country>, ds: seq<Date>, c: Country)
    requires StrictlyAscending(cs, StrLess) && StrictlyAscending(ds, IntLess)
    ensures CountryRows(GroupCountries(m, cs, ds), c) == if c in cs then |GroupDates(m, c, ds)| else 0
    decreases |cs|
  {
    if cs != [] {
      var first := GroupDates(m, cs[0], ds);
      CountryRowsConcat(first, GroupCountries(m, cs[1..], ds), c);
      CountryRowsUniform(first, cs[0], c);
      CountGroupCountries(m, cs[1..], ds, c);
      if c == cs[0] {
        StrLessIrreflexive(c);
        assert c !in cs[1..];
      }
    }
  }

  /** When the raw table has rows, the melted table's dates are the date columns. */
  lemma MeltDates(t: RawTable, c: Country)
    requires Rectangular(t) && HasCountry(t, c)
    ensures forall d :: d in Dates(Project(Melt(t))) <==> d in t.dates
  {
    var m := Project(Melt(t));
    forall d
      ensures d in Dates(m) <==> d in t.dates
    {
      if d in Dates(m) {
        var k :| 0 <= k < |m| && Dates(m)[k] == d;
        OccursMelt(t, m[k].country, d);
      }
      if d in t.dates {
        OccursMelt(t, c, d);
        KeysInColumns(m, c, d);
      }
    }
  }

  /** With N distinct date columns, every country of the raw table has exactly
      N rows in the long table. */
  lemma ReshapeRowsPerCountry(t: RawTable, c: Country)
    requires Rectangular(t) && Distinct(t.dates) && HasCountry(t, c)
    ensures CountryRows(ProcessData(t).0, c) == |t.dates|
  {
    StrLessIsStrictTotalOrder();
    IntLessIsStrictTotalOrder();
    var m := Project(Melt(t));
    var cs, ds := SortedUnique(Countries(m), StrLess), SortedUnique(Dates(m), IntLess);
    assert ProcessData(t).0 == GroupCountries(m, cs, ds);
    CountGroupCountries(m, cs, ds, c);
    MeltDates(t, c);
    AscendingDetermined(ds, SortedUnique(t.dates, IntLess), IntLess);
    if |t.dates| == 0 {
      assert c !in Countries(m);
    } else {
      OccursMelt(t, c, t.dates[0]);
      KeysInColumns(m, c, t.dates[0]);
      forall d | d in ds
        ensures Occurs(m, c, d)
      {
        OccursMelt(t, c, d);
      }
    }
  }

  lemma InCountries(s: seq<LongRow>, c: Country)
    ensures c in Countries(s) <==> exists k :: 0 <= k < |s| && s[k].country == c
  {
    if c in Countries(s) {
      var k :| 0 <= k < |s| && Countries(s)[k] == c;
    }
    if exists k :: 0 <= k < |s| && s[k].country == c {
      var k :| 0 <= k < |s| && s[k].country == c;
      assert Countries(s)[k] == c;
    }
  }

  /** The returned country list is strictly ascending (so free of duplicates)
      and holds exactly the countries of the raw table; when the table has no
      date column the long table is empty and so is the list. */
  lemma CountryList(t: RawTable)
    requires Rectangular(t)
    ensures var countries := ProcessData(t).1;
      && StrictlyAscending(countries, StrLess)
      && forall c :: c in countries <==> HasCountry(t, c) && |t.dates| > 0
  {
    var long := ProcessData(t).0;
    ReshapeKeys(t);
    forall c
      ensures c in ProcessData(t).1 <==> HasCountry(t, c) && |t.dates| > 0
    {
      InCountries(long, c);
      if HasCountry(t, c) && |t.dates| > 0 {
        assert t.dates[0] in t.dates;
      }
    }
  }

  lemma ProjectMeltColumnSame(rows1: seq<RawRow>, rows2: seq<RawRow>, j: nat, d: Date)
    requires |rows1| == |rows2|
    requires forall i :: 0 <= i < |rows1| ==>
      rows1[i].country == rows2[i].country && rows1[i].counts == rows2[i].counts && j < |rows1[i].counts|
    ensures Project(MeltColumn(rows1, j, d)) == Project(MeltColumn(rows2, j, d))
  {
    forall i | 0 <= i < |rows1|
      ensures Project(MeltColumn(rows1, j, d))[i] == Project(MeltColumn(rows2, j, d))[i]
    {
      MeltColumnAt(rows1, j, d, i);
      MeltColumnAt(rows2, j, d, i);
    }
  }

  lemma {:induction false} ProjectMeltFromSame(t1: RawTable, t2: RawTable, j0: nat)
    requires Rectangular(t1) && Rectangular(t2)
    requires t1.dates == t2.dates && |t1.rows| == |t2.rows| && j0 <= |t1.dates|
    requires forall i :: 0 <= i < |t1.rows| ==>
      t1.rows[i].country == t2.rows[i].country && t1.rows[i].counts == t2.rows[i].counts
    ensures Project(MeltFrom(t1, j0)) == Project(MeltFrom(t2, j0))
    decreases |t1.dates| - j0
  {
    if j0 < |t1.dates| {
      ProjectConcat(MeltColumn(t1.rows, j0, t1.dates[j0]), MeltFrom(t1, j0 + 1));
      ProjectConcat(MeltColumn(t2.rows, j0, t2.dates[j0]), MeltFrom(t2, j0 + 1));
      ProjectMeltColumnSame(t1.rows, t2.rows, j0, t1.dates[j0]);
      ProjectMeltFromSame(t1, t2, j0 + 1);
    }
  }

  /** `Province/State`, `Lat` and `Long` do not affect the result: tables
      that agree on the dates and on each row's country and counts reshape
      to the same long table and country list. */
  lemma ReshapeIgnoresLocation(t1: RawTable, t2: RawTable)
    requires Rectangular(t1) && Rectangular(t2)
    requires t1.dates == t2.dates && |t1.rows| == |t2.rows|
    requires forall i :: 0 <= i < |t1.rows| ==>
      t1.rows[i].country == t2.rows[i].country && t1.rows[i].counts == t2.rows[i].counts
    ensures ProcessData(t1) == ProcessData(t2)
  {
    ProjectMeltFromSame(t1, t2, 0);
  }

  /** A country on the returned list is a country of the raw table, which has dates. */
  lemma OfferedCountry(t: RawTable, c: Country)
    requires Rectangular(t) && c in ProcessData(t).1
    ensures HasCountry(t, c) && |t.dates| > 0
  {
    var long := ProcessData(t).0;
    InCountries(long, c);
    var k :| 0 <= k < |long| && long[k].country == c;
    KeyOfRow(t, k);
  }

  /** Each row of the long table comes from a raw row's country and a date column. */
  lemma KeyOfRow(t: RawTable, k: nat)
    requires Rectangular(t) && k < |ProcessData(t).0|
    ensures HasCountry(t, ProcessData(t).0[k].country) && ProcessData(t).0[k].date in t.dates
  {
    var long := ProcessData(t).0;
    assert long == GroupSum(Project(Melt(t)));
    OccursMelt(t, long[k].country, long[k].date);
  }

  /** Each country of the raw table has a row in the long table at each date column. */
  lemma RowOfKey(t: RawTable, c: Country, d: Date) returns (k: nat)
    requires Rectangular(t) && HasCountry(t, c) && d in t.dates
    ensures k < |ProcessData(t).0| && ProcessData(t).0[k].country == c && ProcessData(t).0[k].date == d
  {
    var long := ProcessData(t).0;
    assert long == GroupSum(Project(Melt(t)));
    OccursMelt(t, c, d);
    k :| 0 <= k < |long| && long[k].country == c && long[k].date == d;
  }

  lemma UniqueRows(t: RawTable)
    requires Rectangular(t)
    ensures UniqueKeys(ProcessData(t).0)
  {
    AscendingKeysUnique(ProcessData(t).0);
  }

  /** A parsed table whose date headers are distinct and whose column `j`
      holds the latest of them. */
  predicate LastColumn(t: RawTable, j: nat)
  {
    && Rectangular(t)
    && Distinct(t.dates)
    && j < |t.dates|
    && forall i :: 0 <= i < |t.dates| ==> t.dates[i] <= t.dates[j]
  }

  /** Row `k` of a long table is country `c`'s row at date `d`, holding `v`,
      and no row of `c` is dated later. */
  predicate LatestAt(long: seq<LongRow>, k: nat, c: Country, d: Date, v: int)
  {
    && k < |long|
    && long[k] == LongRow(c, d, v)
    && forall i :: 0 <= i < |long| && long[i].country == c ==> long[i].date <= d
  }

  /** With distinct date headers, a country of the wide table has, at the
      last date, a row of the long table dated no earlier than any of the
      country's rows, and its value is the sum of that date column over the
      country's raw rows. */
  lemma LatestRow(t: RawTable, c: Country, jmax: nat) returns (k: nat, v: int)
    requires LastColumn(t, jmax) && HasCountry(t, c)
    ensures v == ColumnTotal(t.rows, c, jmax)
    ensures LatestAt(ProcessData(t).0, k, c, t.dates[jmax], v)
  {
    var long := ProcessData(t).0;
    v := ColumnTotal(t.rows, c, jmax);
    assert t.dates[jmax] in t.dates;
    k := RowOfKey(t, c, t.dates[jmax]);
    ReshapeValues(t, jmax);
    forall i | 0 <= i < |long| && long[i].country == c
      ensures long[i].date <= t.dates[jmax]
    {
      KeyOfRow(t, i);
    }
  }
}
