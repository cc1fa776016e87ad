/** What `main` does with the two published tables once they are fetched:
    process both, add daily counts, stop on an empty selection, keep the
    selected countries' rows for the charts, and look up each selected
    country's latest confirmed and death counts for the statistics panel. */
module Dashboard {
  import opened Tables
  import opened Order
  import opened Reshape
  import opened Daily

  // ---------------------------------------------------------------------
  // isin filter
  // ---------------------------------------------------------------------

  /** `df[df['Country/Region'].isin(sel)]`: the rows whose country is
      selected, each as often as in `t`, and no others. */
  function FilterSelected(t: seq<DailyRow>, sel: seq<Country>): (r: seq<DailyRow>)
    ensures |r| <= |t|
    ensures forall k :: 0 <= k < |r| ==> r[k].country in sel
  {
    if t == [] then []
    else
      var rest := FilterSelected(t[1..], sel);
      assert t == [t[0]] + t[1..];
      (if t[0].country in sel then [t[0]] else []) + rest
  }

  /** Each selected row is kept as many times as it occurs. */
  lemma {:induction false} FilterCounts(t: seq<DailyRow>, sel: seq<Country>, x: DailyRow)
    ensures multiset(FilterSelected(t, sel))[x] == if x.country in sel then multiset(t)[x] else 0
    decreases |t|
  {
    if t != [] {
      FilterCounts(t[1..], sel, x);
      assert t == [t[0]] + t[1..];
    }
  }

  /** The filter works row by row, so it keeps the rows' original order. */
  lemma {:induction false} FilterConcat(a: seq<DailyRow>, b: seq<DailyRow>, sel: seq<Country>)
    ensures FilterSelected(a + b, sel) == FilterSelected(a, sel) + FilterSelected(b, sel)
    decreases |a|
  {
    if a != [] {
      var x, rest := a[0], a[1..];
      FilterConcat(rest, b, sel);
      assert a == [x] + rest;
      assert a + b == [x] + (rest + b);
      FilterCons(x, rest, sel);
      FilterCons(x, rest + b, sel);
      var h, fr, fb := if x.country in sel then [x] else [], FilterSelected(rest, sel), FilterSelected(b, sel);
      ConcatAssoc(h, fr, fb);
    } else {
      assert a + b == b;
    }
  }

  /** Regrouping a concatenation, stated apart so that `FilterConcat` does
      not have to rediscover it among the filter's facts. */
  lemma ConcatAssoc(a: seq<DailyRow>, b: seq<DailyRow>, c: seq<DailyRow>)
    ensures a + (b + c) == (a + b) + c
  {
  }

  lemma FilterCons(x: DailyRow, t: seq<DailyRow>, sel: seq<Country>)
    ensures FilterSelected([x] + t, sel) == (if x.country in sel then [x] else []) + FilterSelected(t, sel)
  {
    assert ([x] + t)[1..] == t;
  }

  /** Nothing is kept when no row is selected, and only then. */
  lemma {:induction false} FilterEmpty(t: seq<DailyRow>, sel: seq<Country>)
    ensures FilterSelected(t, sel) == [] <==> forall k :: 0 <= k < |t| ==> t[k].country !in sel
    decreases |t|
  {
    if t != [] {
      FilterEmpty(t[1..], sel);
      assert forall k :: 1 <= k < |t| ==> t[k] == t[1..][k - 1];
    }
  }

  // ---------------------------------------------------------------------
  // iloc[-1]
  // ---------------------------------------------------------------------

  /** `t[t['Country/Region'] == c]`: the rows of country `c`, in table order. */
  function RowsOf(t: seq<DailyRow>, c: Country): (r: seq<DailyRow>)
    ensures |r| <= |t|
    ensures forall k :: 0 <= k < |r| ==> r[k].country == c
  {
    if t == [] then []
    else (if t[0].country == c then [t[0]] else []) + RowsOf(t[1..], c)
  }

  /** `t[t['Country/Region'] == c]['Cases'].iloc[-1]`: the `Cases` of the
      last row of `c`, or `None` where pandas raises `IndexError`. */
  function Latest(t: seq<DailyRow>, c: Country): Option<int>
  {
    var rows := RowsOf(t, c);
    if rows == [] then None else Some(rows[|rows| - 1].cases)
  }

  lemma {:induction false} RowsOfEmpty(t: seq<DailyRow>, c: Country)
    ensures RowsOf(t, c) == [] <==> forall k :: 0 <= k < |t| ==> t[k].country != c
    decreases |t|
  {
    if t != [] {
      RowsOfEmpty(t[1..], c);
      assert forall k :: 1 <= k < |t| ==> t[k] == t[1..][k - 1];
    }
  }

  lemma {:induction false} RowsOfLast(t: seq<DailyRow>, c: Country, j: nat)
    requires j < |t| && t[j].country == c
    requires forall k :: j < k < |t| ==> t[k].country != c
    ensures var r := RowsOf(t, c); r != [] && r[|r| - 1] == t[j]
    decreases |t|
  {
    var rest := RowsOf(t[1..], c);
    if j == 0 {
      RowsOfEmpty(t[1..], c);
      assert rest == [];
    } else {
      RowsOfLast(t[1..], c, j - 1);
    }
  }

  /** The rows of a selected country survive the `isin` filter unchanged;
      an unselected country has none left. */
  lemma {:induction false} RowsOfFiltered(t: seq<DailyRow>, sel: seq<Country>, c: Country)
    ensures RowsOf(FilterSelected(t, sel), c) == if c in sel then RowsOf(t, c) else []
    decreases |t|
  {
    if t != [] {
      RowsOfFiltered(t[1..], sel, c);
      var rest := FilterSelected(t[1..], sel);
      if t[0].country in sel {
        assert FilterSelected(t, sel) == [t[0]] + rest;
        assert ([t[0]] + rest)[1..] == rest;
      } else {
        assert FilterSelected(t, sel) == rest;
      }
    }
  }

  /** The lookup fails exactly when `c` has no row, and otherwise reads the
      last row of `c` in table order. */
  lemma LatestIsLastRow(t: seq<DailyRow>, c: Country)
    ensures Latest(t, c).None? <==> forall k :: 0 <= k < |t| ==> t[k].country != c
    ensures forall j :: 0 <= j < |t| && t[j].country == c && (forall k :: j < k < |t| ==> t[k].country != c) ==>
      Latest(t, c) == Some(t[j].cases)
  {
    RowsOfEmpty(t, c);
    forall j | 0 <= j < |t| && t[j].country == c && (forall k :: j < k < |t| ==> t[k].country != c)
      ensures Latest(t, c) == Some(t[j].cases)
    {
      RowsOfLast(t, c, j);
    }
  }

  /** Looking a selected country up in the filtered table gives what the
      unfiltered table gives; an unselected one is not found. */
  lemma LatestThroughFilter(t: seq<DailyRow>, sel: seq<Country>, c: Country)
    ensures Latest(FilterSelected(t, sel), c) == if c in sel then Latest(t, c) else None
  {
    RowsOfFiltered(t, sel, c);
  }

  /** After `calculate_daily_cases`, the last row of a country is the row with
      its greatest date, so the panel shows the count at the latest date. */
  lemma LatestIsMaxDate(long: seq<LongRow>, r: seq<DailyRow>, m: nat)
    requires UniqueKeys(long) && r == CalculateDaily(long)
    requires m < |r|
    requires forall k :: 0 <= k < |r| && r[k].country == r[m].country ==> r[k].date <= r[m].date
    ensures Latest(r, r[m].country) == Some(r[m].cases)
  {
    CalculateDailyOrdered(long);
    var s := Strip(r);
    forall k | m < k < |r|
      ensures r[k].country != r[m].country
    {
      SortedAt(s, m, k);
      assert !SameKey(s[m], s[k]);
    }
    LatestIsLastRow(r, r[m].country);
  }

  // ---------------------------------------------------------------------
  // The statistics panel
  // ---------------------------------------------------------------------

  /** One `st.metric`: a country with its latest confirmed and death counts. */
  datatype Metric = Metric(country: Country, cases: int, deaths: int)

  /** The panel for every selected country, or the first selected country
      whose lookup raised `IndexError`. */
  datatype Stats = Metrics(metrics: seq<Metric>) | Missing(country: Country)

  predicate Fails(cf: seq<DailyRow>, df: seq<DailyRow>, c: Country)
  {
    Latest(cf, c).None? || Latest(df, c).None?
  }

  /** Position `i` holds the first selected country whose lookup fails. */
  predicate FirstFailure(cf: seq<DailyRow>, df: seq<DailyRow>, sel: seq<Country>, i: nat)
  {
    i < |sel| && Fails(cf, df, sel[i]) && forall k :: 0 <= k < i ==> !Fails(cf, df, sel[k])
  }

  /** The loop over the selection at the end of `main`: it goes through the
      countries in selection order and stops at the first failed lookup. */
  function LatestStats(cf: seq<DailyRow>, df: seq<DailyRow>, sel: seq<Country>): (r: Stats)
    ensures r.Metrics? <==> forall i :: 0 <= i < |sel| ==> !Fails(cf, df, sel[i])
    ensures r.Metrics? ==> |r.metrics| == |sel| && forall i :: 0 <= i < |sel| ==>
      r.metrics[i] == Metric(sel[i], Latest(cf, sel[i]).value, Latest(df, sel[i]).value)
    ensures r.Missing? ==> exists i: nat :: FirstFailure(cf, df, sel, i) && sel[i] == r.country
  {
    if sel == [] then Metrics([])
    else if Fails(cf, df, sel[0]) then
      assert FirstFailure(cf, df, sel, 0);
      Missing(sel[0])
    else
      match LatestStats(cf, df, sel[1..])
      case Missing(d) =>
        var i: nat :| FirstFailure(cf, df, sel[1..], i) && sel[1..][i] == d;
        FirstFailureShift(cf, df, sel, i);
        Missing(d)
      case Metrics(ms) =>
        var m := Metric(sel[0], Latest(cf, sel[0]).value, Latest(df, sel[0]).value);
        MetricsCons(cf, df, sel, m, ms);
        Metrics([m] + ms)
  }

  lemma FirstFailureShift(cf: seq<DailyRow>, df: seq<DailyRow>, sel: seq<Country>, i: nat)
    requires sel != [] && !Fails(cf, df, sel[0]) && FirstFailure(cf, df, sel[1..], i)
    ensures FirstFailure(cf, df, sel, i + 1) && sel[i + 1] == sel[1..][i]
  {
    forall k | 0 <= k < i + 1
      ensures !Fails(cf, df, sel[k])
    {
      if k > 0 {
        assert sel[k] == sel[1..][k - 1];
      }
    }
  }

  lemma MetricsCons(cf: seq<DailyRow>, df: seq<DailyRow>, sel: seq<Country>, m: Metric, ms: seq<Metric>)
    requires sel != [] && !Fails(cf, df, sel[0])
    requires m == Metric(sel[0], Latest(cf, sel[0]).value, Latest(df, sel[0]).value)
    requires forall i :: 0 <= i < |sel[1..]| ==> Latest(cf, sel[1..][i]).Some? && Latest(df, sel[1..][i]).Some?
    requires |ms| == |sel[1..]| && forall i :: 0 <= i < |sel[1..]| ==>
      ms[i] == Metric(sel[1..][i], Latest(cf, sel[1..][i]).value, Latest(df, sel[1..][i]).value)
    ensures forall i :: 0 <= i < |sel| ==> Latest(cf, sel[i]).Some? && Latest(df, sel[i]).Some?
    ensures |[m] + ms| == |sel| && forall i :: 0 <= i < |sel| ==>
      ([m] + ms)[i] == Metric(sel[i], Latest(cf, sel[i]).value, Latest(df, sel[i]).value)
  {
    var r := [m] + ms;
    forall i | 0 <= i < |sel|
      ensures Latest(cf, sel[i]).Some? && Latest(df, sel[i]).Some?
      ensures r[i] == Metric(sel[i], Latest(cf, sel[i]).value, Latest(df, sel[i]).value)
    {
      if i > 0 {
        assert sel[i] == sel[1..][i - 1] && r[i] == ms[i - 1];
      }
    }
  }

  // ---------------------------------------------------------------------
  // main
  // ---------------------------------------------------------------------

  /** What `main` makes of one published table before any selection:
      `process_data`, then `calculate_daily_cases`. */
  function DailyTable(raw: RawTable): seq<DailyRow>
    requires Rectangular(raw)
  {
    CalculateDaily(ProcessData(raw).0)
  }

  /** What the page ends up showing. `cases` and `deaths` are the tables
      handed to the two charts. */
  datatype View =
    | LoadFailed
    | NoSelection
    | LookupFailed(cases: seq<DailyRow>, deaths: seq<DailyRow>, country: Country)
    | Shown(cases: seq<DailyRow>, deaths: seq<DailyRow>, metrics: seq<Metric>)

  /** The part of `main` after the widgets, from the two daily tables: stop
      on an empty selection, filter both tables for the charts, then fill the
      statistics panel. A failed lookup is a lookup of a selected country
      that has no row in one of the tables. */
  function Show(cf: seq<DailyRow>, df: seq<DailyRow>, sel: seq<Country>): (v: View)
    ensures !v.LoadFailed?
    ensures v.NoSelection? <==> sel == []
    ensures v.LookupFailed? || v.Shown? ==>
      v.cases == FilterSelected(cf, sel) && v.deaths == FilterSelected(df, sel)
    ensures v.LookupFailed? ==> exists i: nat :: FirstFailure(cf, df, sel, i) && sel[i] == v.country
    ensures v.Shown? <==> sel != [] && forall i :: 0 <= i < |sel| ==> !Fails(cf, df, sel[i])
    ensures v.Shown? ==> |v.metrics| == |sel| && forall i :: 0 <= i < |sel| ==>
      v.metrics[i] == Metric(sel[i], Latest(cf, sel[i]).value, Latest(df, sel[i]).value)
  {
    if sel == [] then NoSelection
    else
      var cases, deaths := FilterSelected(cf, sel), FilterSelected(df, sel);
      SelectedThroughFilter(cf, df, sel);
      match LatestStats(cases, deaths, sel)
      case Missing(c) =>
        var i: nat :| FirstFailure(cases, deaths, sel, i) && sel[i] == c;
        FirstFailureThroughFilter(cf, df, sel, i);
        LookupFailed(cases, deaths, c)
      case Metrics(ms) => Shown(cases, deaths, ms)
  }

  /** Every selected country is looked up in the filtered tables as in the whole tables. */
  lemma SelectedThroughFilter(cf: seq<DailyRow>, df: seq<DailyRow>, sel: seq<Country>)
    ensures forall i :: 0 <= i < |sel| ==>
      && Latest(FilterSelected(cf, sel), sel[i]) == Latest(cf, sel[i])
      && Latest(FilterSelected(df, sel), sel[i]) == Latest(df, sel[i])
  {
    forall i | 0 <= i < |sel|
      ensures Latest(FilterSelected(cf, sel), sel[i]) == Latest(cf, sel[i])
      ensures Latest(FilterSelected(df, sel), sel[i]) == Latest(df, sel[i])
    {
      LatestThroughFilter(cf, sel, sel[i]);
      LatestThroughFilter(df, sel, sel[i]);
    }
  }

  /** The first selected country whose lookup fails in the filtered tables is
      the first one whose lookup fails in the whole tables. */
  lemma FirstFailureThroughFilter(cf: seq<DailyRow>, df: seq<DailyRow>, sel: seq<Country>, i: nat)
    requires FirstFailure(FilterSelected(cf, sel), FilterSelected(df, sel), sel, i)
    ensures FirstFailure(cf, df, sel, i)
  {
    SelectedThroughFilter(cf, df, sel);
  }

  /** `main` from the fetched tables (`None` when a fetch failed) and the
      countries picked in the multiselect. */
  function Render(confirmed: Option<RawTable>, deaths: Option<RawTable>, selected: seq<Country>): (v: View)
    requires confirmed.Some? ==> Rectangular(confirmed.value)
    requires deaths.Some? ==> Rectangular(deaths.value)
    ensures v.LoadFailed? <==> confirmed.None? || deaths.None?
    ensures v.NoSelection? <==> confirmed.Some? && deaths.Some? && selected == []
  {
    if confirmed.None? || deaths.None? then LoadFailed
    else Show(DailyTable(confirmed.value), DailyTable(deaths.value), selected)
  }

  // ---------------------------------------------------------------------
  // End to end
  // ---------------------------------------------------------------------

  /** On any long table: after `calculate_daily_cases`, a country has a latest
      value exactly when it has a row. */
  lemma LatestFoundInLong(long: seq<LongRow>, c: Country)
    ensures Latest(CalculateDaily(long), c).Some? <==> exists k :: 0 <= k < |long| && long[k].country == c
  {
    var r := CalculateDaily(long);
    LatestIsLastRow(r, c);
    SameCountries(r, long, c);
  }

  /** Rows that are the same multiset once `Daily` is dropped name the same countries. */
  lemma SameCountries(r: seq<DailyRow>, long: seq<LongRow>, c: Country)
    requires multiset(Strip(r)) == multiset(long)
    ensures (exists e :: 0 <= e < |r| && r[e].country == c) <==> exists k :: 0 <= k < |long| && long[k].country == c
  {
    var s := Strip(r);
    if exists k :: 0 <= k < |long| && long[k].country == c {
      var k :| 0 <= k < |long| && long[k].country == c;
      assert long[k] in multiset(s);
      var e :| 0 <= e < |s| && s[e] == long[k];
      assert r[e].country == c;
    }
    if exists e :: 0 <= e < |r| && r[e].country == c {
      var e :| 0 <= e < |r| && r[e].country == c;
      assert s[e] in multiset(long);
      var k :| 0 <= k < |long| && long[k] == s[e];
    }
  }

  /** On any long table with one row per key: after `calculate_daily_cases`,
      the latest value of a country is the `Cases` of its row with the
      greatest date. */
  lemma LatestInLong(long: seq<LongRow>, k: nat, c: Country, d: Date, v: int)
    requires UniqueKeys(long) && LatestAt(long, k, c, d, v)
    ensures Latest(CalculateDaily(long), c) == Some(v)
  {
    var r := CalculateDaily(long);
    var s := Strip(r);
    assert long[k] in multiset(s);
    var m :| 0 <= m < |s| && s[m] == long[k];
    forall e | 0 <= e < |r| && r[e].country == c
      ensures r[e].date <= r[m].date
    {
      assert s[e] in multiset(long);
      var i :| 0 <= i < |long| && long[i] == s[e];
    }
    LatestIsMaxDate(long, r, m);
  }

  /** A country has a latest value exactly when it appears in the published
      table and the table has at least one date column. */
  lemma LatestFound(raw: RawTable, c: Country)
    requires Rectangular(raw)
    ensures Latest(DailyTable(raw), c).Some? <==> HasCountry(raw, c) && |raw.dates| > 0
  {
    var long := ProcessData(raw).0;
    LatestFoundInLong(long, c);
    InCountries(long, c);
    CountryList(raw);
  }

  /** The statistics panel's value for a country is the sum, over the
      country's published rows, of the last date column. */
  lemma LatestIsColumnTotal(raw: RawTable, c: Country, jmax: nat)
    requires LastColumn(raw, jmax)
    requires HasCountry(raw, c)
    ensures Latest(DailyTable(raw), c) == Some(ColumnTotal(raw.rows, c, jmax))
  {
    var k, v := LatestRow(raw, c, jmax);
    UniqueRows(raw);
    LatestInLong(ProcessData(raw).0, k, c, raw.dates[jmax], v);
  }

  /** The panel's values for a list of countries of the table: for each, the
      sum of its rows' counts in the last date column. */
  lemma LatestAreColumnTotals(raw: RawTable, sel: seq<Country>, jmax: nat) returns (totals: seq<int>)
    requires LastColumn(raw, jmax)
    requires forall i :: 0 <= i < |sel| ==> HasCountry(raw, sel[i])
    ensures |totals| == |sel|
    ensures forall i :: 0 <= i < |sel| ==>
      totals[i] == ColumnTotal(raw.rows, sel[i], jmax) && Latest(DailyTable(raw), sel[i]) == Some(totals[i])
  {
    totals := seq(|sel|, i requires 0 <= i < |sel| => ColumnTotal(raw.rows, sel[i], jmax));
    forall i | 0 <= i < |sel|
      ensures Latest(DailyTable(raw), sel[i]) == Some(totals[i])
    {
      LatestIsColumnTotal(raw, sel[i], jmax);
    }
  }

  /** When every selected country is found in both daily tables, the page
      shows one metric per selected country, in selection order, holding the
      values found. */
  lemma ShowAllFound(cf: seq<DailyRow>, df: seq<DailyRow>, sel: seq<Country>, cs: seq<int>, ds: seq<int>)
    requires sel != [] && |cs| == |sel| && |ds| == |sel|
    requires forall i :: 0 <= i < |sel| ==> Latest(cf, sel[i]) == Some(cs[i]) && Latest(df, sel[i]) == Some(ds[i])
    ensures var v := Show(cf, df, sel);
      && v.Shown?
      && |v.metrics| == |sel|
      && forall i :: 0 <= i < |sel| ==> v.metrics[i] == Metric(sel[i], cs[i], ds[i])
  {
    forall i | 0 <= i < |sel|
      ensures !Fails(cf, df, sel[i])
    {
    }
  }

  /** The multiselect only offers countries of the confirmed table, so a
      failed lookup names a country missing from the deaths table, or comes
      from a deaths table without date columns. */
  lemma OfferedCountriesFailOnlyOnDeaths(confirmed: RawTable, deaths: RawTable, selected: seq<Country>)
    requires Rectangular(confirmed) && Rectangular(deaths)
    requires forall i :: 0 <= i < |selected| ==> selected[i] in ProcessData(confirmed).1
    ensures var v := Render(Some(confirmed), Some(deaths), selected);
      v.LookupFailed? ==> !HasCountry(deaths, v.country) || |deaths.dates| == 0
  {
    var v := Render(Some(confirmed), Some(deaths), selected);
    if v.LookupFailed? {
      OfferedCountry(confirmed, v.country);
      LatestFound(confirmed, v.country);
      LatestFound(deaths, v.country);
    }
  }
}
