/** The sidebar filter every page applies to the cleaned table: rows dated
    strictly before the chosen day, then rows whose traffic density is one of
    the chosen options. The three pages hold the same four lines
    (pages/1_visao_empresa.py:163-168, pages/2_visao_entregadores.py:121-126,
    pages/3_visao_restaurantes.py:175-180), modelled once. */
module Filtering {
  import Calendar
  import Series
  import opened Orders
  import opened Wrappers
  import Cleaning

  /** `df1['Order_Date'] < date_slider`: a row without a date (`NaT`) compares
      false and is dropped. */
  predicate DatedBefore(o: Order, bound: Calendar.Date) {
    o.orderDate.Some? && Calendar.Before(o.orderDate.value, bound)
  }

  /** `df1['Road_traffic_density'].isin(traffic_options)`. */
  predicate TrafficIn(o: Order, options: seq<string>) {
    o.traffic in options
  }

  /** A row both masks keep. */
  predicate Selected(o: Order, bound: Calendar.Date, options: seq<string>) {
    DatedBefore(o, bound) && TrafficIn(o, options)
  }

  function DateMask(bound: Calendar.Date): Order -> bool {
    o => DatedBefore(o, bound)
  }

  function TrafficMask(options: seq<string>): Order -> bool {
    o => TrafficIn(o, options)
  }

  function SelectionMask(bound: Calendar.Date, options: seq<string>): Order -> bool {
    o => Selected(o, bound, options)
  }

  /** The two rebindings of `df1`: the result is the one-pass selection of
      the rows that satisfy both conditions. */
  method FilterRows(df: seq<Order>, bound: Calendar.Date, options: seq<string>) returns (out: seq<Order>)
    ensures out == Series.Filter(df, SelectionMask(bound, options))
  {
    out := Series.SelectRows(df, DateMask(bound));
    out := Series.SelectRows(out, TrafficMask(options));
    Series.FilterTwice(df, DateMask(bound), TrafficMask(options), SelectionMask(bound, options));
  }

  /** The filter keeps exactly the rows dated before the bound whose traffic
      is a chosen option, each as often as it occurs, in their order. */
  lemma {:induction false} SelectionKeepsExactlySelected(df: seq<Order>, bound: Calendar.Date, options: seq<string>)
    ensures forall i :: 0 <= i < |Series.Filter(df, SelectionMask(bound, options))| ==>
              Selected(Series.Filter(df, SelectionMask(bound, options))[i], bound, options)
    ensures forall o :: multiset(Series.Filter(df, SelectionMask(bound, options)))[o] ==
              if Selected(o, bound, options) then multiset(df)[o] else 0
    ensures |Series.Filter(df, SelectionMask(bound, options))| == |Series.KeptPositions(df, SelectionMask(bound, options))|
    ensures forall k :: 0 <= k < |Series.Filter(df, SelectionMask(bound, options))| ==>
              Series.Filter(df, SelectionMask(bound, options))[k]
              == df[Series.KeptPositions(df, SelectionMask(bound, options))[k]]
  {
    Series.FilterCounts(df, SelectionMask(bound, options));
    Series.FilterAtKeptPositions(df, SelectionMask(bound, options));
  }

  /** A bound no later than every date of the table, such as the earliest
      date itself, leaves no row. */
  lemma {:induction false} BoundAtEarliestDateLeavesNothing(df: seq<Order>, bound: Calendar.Date, options: seq<string>)
    requires forall i :: 0 <= i < |df| && df[i].orderDate.Some? ==> !Calendar.Before(df[i].orderDate.value, bound)
    ensures Series.Filter(df, SelectionMask(bound, options)) == []
  {
    Series.FilterNone(df, SelectionMask(bound, options));
  }

  /** Choosing every traffic value present and a bound after every date keeps
      every dated row. */
  lemma {:induction false} WideSelectionKeepsDatedRows(df: seq<Order>, bound: Calendar.Date, options: seq<string>)
    requires forall i :: 0 <= i < |df| ==> df[i].traffic in options
    requires forall i :: 0 <= i < |df| && df[i].orderDate.Some? ==> Calendar.Before(df[i].orderDate.value, bound)
    ensures Series.Filter(df, SelectionMask(bound, options)) == Series.Filter(df, (o: Order) => o.orderDate.Some?)
  {
    Series.FilterSame(df, SelectionMask(bound, options), (o: Order) => o.orderDate.Some?);
  }

  /** The filter keeps only rows of the table, so valid dates stay valid. */
  lemma {:induction false} SelectionKeepsDatesValid(df: seq<Order>, bound: Calendar.Date, options: seq<string>)
    requires DatesValid(df)
    ensures DatesValid(Series.Filter(df, SelectionMask(bound, options)))
  {
    var out := Series.Filter(df, SelectionMask(bound, options));
    forall i | 0 <= i < |out| && out[i].orderDate.Some?
      ensures Calendar.IsValid(out[i].orderDate.value)
    {
      Series.FilterMembers(df, SelectionMask(bound, options), out[i]);
      var j :| 0 <= j < |df| && df[j] == out[i];
    }
  }

  /** The page's own order of steps, `clean_code` and then the sidebar
      filter, leaves a table whose dates are calendar days, as the weekly
      charts require. */
  lemma {:induction false} PageTableDatesValid(raw: seq<RawOrder>, rows: seq<Order>, bound: Calendar.Date, options: seq<string>)
    requires Cleaning.Clean(raw) == Ok(rows)
    ensures DatesValid(Series.Filter(rows, SelectionMask(bound, options)))
  {
    Cleaning.CleanedDatesValid(raw, rows);
    SelectionKeepsDatesValid(rows, bound, options);
  }
}
