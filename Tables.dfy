/** The tables that the dashboard's pipeline passes from stage to stage:
    the wide table as published, the melted table, the long table keyed by
    (country, date), and the long table with its `Daily` column. */
module Tables {

  /** A `Country/Region` value. */
  type Country = string

  /** A date-column header after `pd.to_datetime`; only its order matters,
      so it is kept as the day number. */
  type Date = int

  datatype Option<T> = None | Some(value: T)

  /** One line of the published CSV: `Province/State` (missing for most
      countries), `Country/Region`, `Lat`, `Long`, then one cumulative count
      per date column. */
  datatype RawRow = RawRow(province: Option<string>, country: Country, lat: real, long: real, counts: seq<int>)

  /** The wide table: the parsed date headers in column order, and the rows. */
  datatype RawTable = RawTable(dates: seq<Date>, rows: seq<RawRow>)

  /** Every row has one count per date column, as a parsed CSV does. */
  predicate Rectangular(t: RawTable)
  {
    forall i :: 0 <= i < |t.rows| ==> |t.rows[i].counts| == |t.dates|
  }

  /** Some row of the wide table belongs to country `c`. */
  predicate HasCountry(t: RawTable, c: Country)
  {
    exists i :: 0 <= i < |t.rows| && t.rows[i].country == c
  }

  /** A row of `df.melt(...)`: the identifying columns of one raw row, one
      date and that row's count at that date. */
  datatype MeltedRow = MeltedRow(province: Option<string>, country: Country, lat: real, long: real, date: Date, cases: int)

  /** A row of the long table: `Country/Region`, `Date`, `Cases`. */
  datatype LongRow = LongRow(country: Country, date: Date, cases: int)

  /** A row of the long table after `calculate_daily_cases` added `Daily`. */
  datatype DailyRow = DailyRow(country: Country, date: Date, cases: int, daily: int)

  /** The long-table columns of a daily table, `Daily` dropped. */
  function Strip(r: seq<DailyRow>): seq<LongRow>
  {
    seq(|r|, i requires 0 <= i < |r| => LongRow(r[i].country, r[i].date, r[i].cases))
  }

  predicate SameKey(a: LongRow, b: LongRow)
  {
    a.country == b.country && a.date == b.date
  }

  /** No two rows share a (country, date) key. */
  predicate UniqueKeys(s: seq<LongRow>)
  {
    forall i, j :: 0 <= i < j < |s| ==> !SameKey(s[i], s[j])
  }

  /** Ordered by non-decreasing date: every row is dated on or before the next. */
  predicate DateSorted(s: seq<LongRow>)
    decreases |s|
  {
    |s| <= 1 || (s[0].date <= s[1].date && DateSorted(s[1..]))
  }

  /** In a date-sorted table, an earlier row is dated on or before a later one. */
  lemma {:induction false} SortedAt(s: seq<LongRow>, i: nat, j: nat)
    requires DateSorted(s) && i <= j < |s|
    ensures s[i].date <= s[j].date
    decreases |s|
  {
    if 0 < i {
      SortedAt(s[1..], i - 1, j - 1);
    } else if 0 < j {
      SortedAt(s[1..], 0, j - 1);
    }
  }
}
