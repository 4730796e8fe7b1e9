/** The company view, pages/1_visao_empresa.py: orders per day, per traffic
    density and per city, the traffic share, and the two weekly charts. The
    charts are left aside; what is modelled is the table each one is drawn
    from. */
module Empresa {
  import opened Wrappers
  import Calendar
  import Series
  import opened Grouping
  import opened Orders

  // ---------------------------------------------------------------------------
  // order_metric: orders per day
  // ---------------------------------------------------------------------------

  predicate HasDate(o: Order) { o.orderDate.Some? }

  /** The group key of a dated row: its day. */
  function DayKey(o: Order): Key {
    match o.orderDate
    case Some(d) => [Day(d)]
    case None => []
  }

  /** `df1.loc[:, ['ID', 'Order_Date']].groupby(['Order_Date']).count()`:
      rows without a date form no group. */
  function OrderMetric(rows: seq<Order>): seq<Counted> {
    CountTable(KeysBy(Series.Filter(rows, HasDate), DayKey))
  }

  /** One entry per day present, days ascending; each count is the number of
      rows of that day, at least 1; the counts add up to the number of dated
      rows. */
  lemma {:induction false} OrderMetricProperties(rows: seq<Order>)
    ensures StrictlyAscending(Keys(OrderMetric(rows)))
    ensures forall i :: 0 <= i < |OrderMetric(rows)| ==>
              1 <= OrderMetric(rows)[i].count
                == |Series.Filter(Series.Filter(rows, HasDate), HasKey(DayKey, OrderMetric(rows)[i].key))|
    ensures TotalCount(OrderMetric(rows)) == |Series.Filter(rows, HasDate)|
  {
    CountTableOfRows(Series.Filter(rows, HasDate), DayKey);
  }

  /** Every key is a single day, and a day has an entry exactly when some row
      has that date. */
  lemma {:induction false} OrderMetricDays(rows: seq<Order>)
    ensures forall d :: [Day(d)] in Keys(OrderMetric(rows)) <==> exists i :: 0 <= i < |rows| && rows[i].orderDate == Some(d)
    ensures forall k :: k in Keys(OrderMetric(rows)) ==> exists d :: k == [Day(d)]
  {
    var dated := Series.Filter(rows, HasDate);
    CountTableOfRows(dated, DayKey);
    assert OrderMetric(rows) == CountTable(KeysBy(dated, DayKey));
    DaysOfKeys(rows, dated, Keys(OrderMetric(rows)), DayKey);
  }

  /** Keys that are exactly the day keys of the dated rows are single days,
      and hold a day exactly when some row has that date. */
  lemma {:induction false} DaysOfKeys(rows: seq<Order>, dated: seq<Order>, ks: seq<Key>, key: Order -> Key)
    requires dated == Series.Filter(rows, HasDate)
    requires forall o :: key(o) == DayKey(o)
    requires forall k :: k in ks <==> exists j :: 0 <= j < |dated| && key(dated[j]) == k
    ensures forall d :: [Day(d)] in ks <==> exists i :: 0 <= i < |rows| && rows[i].orderDate == Some(d)
    ensures forall k :: k in ks ==> exists d :: k == [Day(d)]
  {
    forall d ensures [Day(d)] in ks <==> exists i :: 0 <= i < |rows| && rows[i].orderDate == Some(d) {
      DatedDay(rows, d);
      if [Day(d)] in ks {
        var j :| 0 <= j < |dated| && key(dated[j]) == [Day(d)];
        assert DayKey(dated[j]) == [Day(d)];
      }
      if exists i :: 0 <= i < |rows| && rows[i].orderDate == Some(d) {
        var j :| 0 <= j < |dated| && DayKey(dated[j]) == [Day(d)];
        assert key(dated[j]) == [Day(d)];
      }
    }
    forall k | k in ks ensures exists d :: k == [Day(d)] {
      var j :| 0 <= j < |dated| && key(dated[j]) == k;
      assert HasDate(dated[j]);
      assert k == [Day(dated[j].orderDate.value)];
    }
  }

  /** A day is the key of a dated row exactly when some row has that date. */
  lemma {:induction false} DatedDay(rows: seq<Order>, d: Calendar.Date)
    ensures (exists j :: 0 <= j < |Series.Filter(rows, HasDate)| && DayKey(Series.Filter(rows, HasDate)[j]) == [Day(d)])
        <==> exists i :: 0 <= i < |rows| && rows[i].orderDate == Some(d)
  {
    var dated := Series.Filter(rows, HasDate);
    Series.FilterCounts(rows, HasDate);
    if exists j :: 0 <= j < |dated| && DayKey(dated[j]) == [Day(d)] {
      var j :| 0 <= j < |dated| && DayKey(dated[j]) == [Day(d)];
      assert dated[j] in multiset(rows);
      var i :| 0 <= i < |rows| && rows[i] == dated[j];
      assert rows[i].orderDate == Some(d);
    }
    if exists i :: 0 <= i < |rows| && rows[i].orderDate == Some(d) {
      var i :| 0 <= i < |rows| && rows[i].orderDate == Some(d);
      var j := DatedRowKept(rows, i);
      assert DayKey(dated[j]) == [Day(d)];
    }
  }

  /** A dated row survives the selection of dated rows. */
  lemma {:induction false} DatedRowKept(rows: seq<Order>, i: nat) returns (j: nat)
    requires i < |rows| && HasDate(rows[i])
    ensures j < |Series.Filter(rows, HasDate)| && Series.Filter(rows, HasDate)[j] == rows[i]
  {
    var dated := Series.Filter(rows, HasDate);
    Series.FilterCounts(rows, HasDate);
    assert rows[i] in multiset(rows);
    assert multiset(dated)[rows[i]] == multiset(rows)[rows[i]];
    assert rows[i] in multiset(dated);
    assert rows[i] in dated;
    j :| 0 <= j < |dated| && dated[j] == rows[i];
  }

  // ---------------------------------------------------------------------------
  // traffic_order_city and traffic_order_share
  // ---------------------------------------------------------------------------

  function CityTrafficKey(o: Order): Key {
    [Word(o.city), Word(o.traffic)]
  }

  function TrafficKey(o: Order): Key {
    [Word(o.traffic)]
  }

  /** `df1.loc[:, ['ID', 'City', 'Road_traffic_density']]
      .groupby(['City', 'Road_traffic_density']).count()`. */
  function TrafficOrderCity(rows: seq<Order>): seq<Counted> {
    CountTable(KeysBy(rows, CityTrafficKey))
  }

  /** One entry per (city, traffic) pair present, ascending by city and then
      traffic; each count the number of rows with that pair, at least 1; the
      counts add up to the number of rows. */
  lemma {:induction false} TrafficOrderCityProperties(rows: seq<Order>)
    ensures StrictlyAscending(Keys(TrafficOrderCity(rows)))
    ensures forall i :: 0 <= i < |TrafficOrderCity(rows)| ==>
              1 <= TrafficOrderCity(rows)[i].count
                == |Series.Filter(rows, HasKey(CityTrafficKey, TrafficOrderCity(rows)[i].key))|
    ensures TotalCount(TrafficOrderCity(rows)) == |rows|
  {
    CountTableOfRows(rows, CityTrafficKey);
  }

  /** The (city, traffic) entries are exactly the pairs that occur in some row. */
  lemma {:induction false} TrafficOrderCityPairs(rows: seq<Order>)
    ensures forall c, t :: [Word(c), Word(t)] in Keys(TrafficOrderCity(rows)) <==>
              exists i :: 0 <= i < |rows| && rows[i].city == c && rows[i].traffic == t
  {
    CountTableOfRows(rows, CityTrafficKey);
    CityTrafficPairs(rows, Keys(TrafficOrderCity(rows)), CityTrafficKey);
  }

  /** Keys that are exactly the (city, traffic) keys of the rows are exactly
      the pairs that occur in some row. */
  lemma {:induction false} CityTrafficPairs(rows: seq<Order>, ks: seq<Key>, key: Order -> Key)
    requires forall o :: key(o) == [Word(o.city), Word(o.traffic)]
    requires forall k :: k in ks <==> exists i :: 0 <= i < |rows| && key(rows[i]) == k
    ensures forall c, t :: [Word(c), Word(t)] in ks <==>
              exists i :: 0 <= i < |rows| && rows[i].city == c && rows[i].traffic == t
  {
    forall c, t ensures [Word(c), Word(t)] in ks <==>
              exists i :: 0 <= i < |rows| && rows[i].city == c && rows[i].traffic == t
    {
      if exists i :: 0 <= i < |rows| && rows[i].city == c && rows[i].traffic == t {
        var i :| 0 <= i < |rows| && rows[i].city == c && rows[i].traffic == t;
        assert key(rows[i]) == [Word(c), Word(t)];
      }
    }
  }

  /** One row of `traffic_order_share`: a traffic density, its number of
      orders and its share of all orders (`entregas_perc`). */
  datatype Share = Share(key: Key, count: nat, fraction: real)

  /** `traffic_order_share`: the traffic counts, each divided by their
      total. */
  function TrafficOrderShare(rows: seq<Order>): seq<Share> {
    Shares(CountTable(KeysBy(rows, TrafficKey)))
  }

  /** A count table with the share of each entry in the total; a table with
      nothing counted has no shares. */
  function Shares(t: seq<Counted>): (s: seq<Share>)
    ensures TotalCount(t) > 0 ==> |s| == |t|
    ensures TotalCount(t) == 0 ==> s == []
  {
    if TotalCount(t) == 0 then []
    else seq(|t|, i requires 0 <= i < |t| => Share(t[i].key, t[i].count, t[i].count as real / TotalCount(t) as real))
  }

  lemma {:induction false} TotalAtLeastEach(t: seq<Counted>, i: nat)
    requires i < |t|
    ensures t[i].count <= TotalCount(t)
  {
    if i < |t| - 1 {
      TotalAtLeastEach(t[..|t| - 1], i);
    }
  }

  function SumFractions(s: seq<Share>): real {
    if |s| == 0 then 0.0 else SumFractions(s[..|s| - 1]) + s[|s| - 1].fraction
  }

  function ShareCounts(s: seq<Share>): seq<Counted> {
    seq(|s|, i requires 0 <= i < |s| => Counted(s[i].key, s[i].count))
  }

  /** Each share is its count over the total; with every count at least 1,
      each lies in (0, 1]; and the shares add up to exactly 1. */
  lemma {:induction false} SharesProperties(t: seq<Counted>)
    requires TotalCount(t) > 0
    requires forall i :: 0 <= i < |t| ==> t[i].count >= 1
    ensures ShareCounts(Shares(t)) == t
    ensures forall i :: 0 <= i < |Shares(t)| ==>
              var s := Shares(t)[i];
              0.0 < s.fraction <= 1.0 && s.fraction == s.count as real / (TotalCount(t) as real)
    ensures SumFractions(Shares(t)) == 1.0
  {
    ShareCountsOf(t);
    forall i | 0 <= i < |Shares(t)|
      ensures 0.0 < Shares(t)[i].fraction <= 1.0
      ensures Shares(t)[i].fraction == Shares(t)[i].count as real / (TotalCount(t) as real)
    {
      ShareBounds(t, i);
    }
    SharesSum(t);
  }

  lemma {:induction false} ShareCountsOf(t: seq<Counted>)
    requires TotalCount(t) > 0
    ensures ShareCounts(Shares(t)) == t
  {
  }

  lemma {:induction false} ShareBounds(t: seq<Counted>, i: nat)
    requires TotalCount(t) > 0 && i < |t| && t[i].count >= 1
    ensures 0.0 < Shares(t)[i].fraction <= 1.0
    ensures Shares(t)[i].fraction == Shares(t)[i].count as real / (TotalCount(t) as real)
  {
    TotalAtLeastEach(t, i);
    FractionBounds(t[i].count as real, TotalCount(t) as real);
  }

  lemma {:induction false} SharesSum(t: seq<Counted>)
    requires TotalCount(t) > 0
    ensures SumFractions(Shares(t)) == 1.0
  {
    var s := Shares(t);
    var n := TotalCount(t) as real;
    assert forall i :: 0 <= i < |t| ==> s[i].fraction == t[i].count as real / n;
    FractionsAddUp(t, s, n, |t|);
    assert s[..|s|] == s && t[..|t|] == t;
    WholeOverWhole(n);
  }

  lemma {:induction false} WholeOverWhole(n: real)
    requires n > 0.0
    ensures n / n == 1.0
  {
  }

  /** The shares of a count table over `keys`: each lies in (0, 1] and is
      its count over the number of keys, and they add up to exactly 1. */
  lemma {:induction false} CountShares(keys: seq<Key>)
    ensures |keys| == 0 ==> Shares(CountTable(keys)) == []
    ensures |keys| > 0 ==> ShareCounts(Shares(CountTable(keys))) == CountTable(keys)
    ensures forall i :: 0 <= i < |Shares(CountTable(keys))| ==>
              && 0.0 < Shares(CountTable(keys))[i].fraction <= 1.0
              && Shares(CountTable(keys))[i].fraction == Shares(CountTable(keys))[i].count as real / (|keys| as real)
    ensures |keys| > 0 ==> SumFractions(Shares(CountTable(keys))) == 1.0
  {
    CountTotal(keys);
    if |keys| > 0 {
      ShareCountsOf(CountTable(keys));
      CountSharesBounds(keys);
      CountsAreCounts(keys);
      SharesSum(CountTable(keys));
    }
  }

  lemma {:induction false} CountSharesBounds(keys: seq<Key>)
    ensures forall i :: 0 <= i < |Shares(CountTable(keys))| ==>
              && 0.0 < Shares(CountTable(keys))[i].fraction <= 1.0
              && Shares(CountTable(keys))[i].fraction == Shares(CountTable(keys))[i].count as real / (|keys| as real)
  {
    var t := CountTable(keys);
    CountTotal(keys);
    if |keys| > 0 {
      CountsAreCounts(keys);
      forall i | 0 <= i < |Shares(t)|
        ensures 0.0 < Shares(t)[i].fraction <= 1.0
        ensures Shares(t)[i].fraction == Shares(t)[i].count as real / (|keys| as real)
      {
        ShareBounds(t, i);
      }
    }
  }

  /** The shares are the traffic counts over the number of rows: each lies in
      (0, 1], and on a table with rows they add up to exactly 1. */
  lemma {:induction false} TrafficOrderShareProperties(rows: seq<Order>)
    ensures |rows| == 0 ==> TrafficOrderShare(rows) == []
    ensures |rows| > 0 ==> ShareCounts(TrafficOrderShare(rows)) == CountTable(KeysBy(rows, TrafficKey))
    ensures forall i :: 0 <= i < |TrafficOrderShare(rows)| ==>
              && 0.0 < TrafficOrderShare(rows)[i].fraction <= 1.0
              && TrafficOrderShare(rows)[i].fraction == TrafficOrderShare(rows)[i].count as real / (|rows| as real)
    ensures |rows| > 0 ==> SumFractions(TrafficOrderShare(rows)) == 1.0
  {
    CountShares(KeysBy(rows, TrafficKey));
  }

  lemma {:induction false} FractionBounds(c: real, n: real)
    requires 1.0 <= c <= n
    ensures 0.0 < c / n <= 1.0 && c / n * n == c
  {
  }

  lemma {:induction false} FractionsAddUp(t: seq<Counted>, s: seq<Share>, n: real, k: nat)
    requires n > 0.0 && |s| == |t| && k <= |t|
    requires forall i :: 0 <= i < |t| ==> s[i].fraction == t[i].count as real / n
    ensures SumFractions(s[..k]) == TotalCount(t[..k]) as real / n
  {
    if k > 0 {
      FractionsAddUp(t, s, n, k - 1);
      assert s[..k][..k - 1] == s[..k - 1];
      assert t[..k][..k - 1] == t[..k - 1];
      assert SumFractions(s[..k]) == SumFractions(s[..k - 1]) + s[k - 1].fraction;
      assert TotalCount(t[..k]) == TotalCount(t[..k - 1]) + t[k - 1].count;
      SplitQuotient(TotalCount(t[..k - 1]) as real, t[k - 1].count as real, n);
    } else {
      assert s[..0] == [] && t[..0] == [];
    }
  }

  lemma {:induction false} SplitQuotient(a: real, b: real, n: real)
    requires n > 0.0
    ensures a / n + b / n == (a + b) / n
  {
  }

  // ---------------------------------------------------------------------------
  // order_by_week and order_share_by_week
  // ---------------------------------------------------------------------------

  /** `df1['Order_Date'].dt.strftime('%U')`: the week of each row; a row
      without a date has none. */
  function WeekColumn(rows: seq<Order>): (column: seq<Option<string>>)
    requires DatesValid(rows)
    ensures |column| == |rows|
  {
    seq(|rows|, i requires 0 <= i < |rows| =>
      match rows[i].orderDate
      case Some(d) => Some(Calendar.WeekText(d))
      case None => None)
  }

  /** The rows that have a week, keyed by it, each with its courier. */
  function ByWeek(rows: seq<Order>, column: seq<Option<string>>): (w: seq<Keyed<string>>)
    requires |column| == |rows|
    ensures |w| <= |rows|
  {
    if |rows| == 0 then []
    else
      var n := |rows| - 1;
      ByWeek(rows[..n], column[..n])
      + match column[n]
        case Some(week) => [Keyed([Word(week)], rows[n].deliveryPersonId)]
        case None => []
  }

  /** The rows dated in the `%U` week spelled `s`. */
  function InWeek(s: string): Order -> bool {
    (o: Order) => o.orderDate.Some? && Calendar.IsValid(o.orderDate.value) && Calendar.WeekText(o.orderDate.value) == s
  }

  function CourierOf(o: Order): string {
    o.deliveryPersonId
  }

  /** A column entry for week `s` marks exactly a row dated in week `s`. */
  lemma {:induction false} WeekColumnMarks(rows: seq<Order>, s: string)
    requires DatesValid(rows)
    ensures forall i :: 0 <= i < |rows| ==> (WeekColumn(rows)[i] == Some(s) <==> InWeek(s)(rows[i]))
  {
  }

  /** The group of week `s` holds the couriers of exactly the rows whose
      column entry is `s`, in row order. */
  lemma {:induction false} ByWeekGroup(rows: seq<Order>, column: seq<Option<string>>, s: string)
    requires |column| == |rows|
    requires forall i :: 0 <= i < |rows| ==> (column[i] == Some(s) <==> InWeek(s)(rows[i]))
    ensures ValuesOf(ByWeek(rows, column), [Word(s)]) == Column(Series.Filter(rows, InWeek(s)), CourierOf)
  {
    if |rows| > 0 {
      var n := |rows| - 1;
      ByWeekGroup(rows[..n], column[..n], s);
      ByWeekGroupLast(rows, column, s);
      ColumnOfSelectionLast(rows, InWeek(s), CourierOf);
      assert (column[n] == Some(s)) == InWeek(s)(rows[n]);
    }
  }

  /** The week-`s` group grows by the last row's courier exactly when the
      last column entry is `s`. */
  lemma {:induction false} ByWeekGroupLast(rows: seq<Order>, column: seq<Option<string>>, s: string)
    requires |column| == |rows| > 0
    ensures var n := |rows| - 1;
            ValuesOf(ByWeek(rows, column), [Word(s)])
              == ValuesOf(ByWeek(rows[..n], column[..n]), [Word(s)])
                 + (if column[n] == Some(s) then [CourierOf(rows[n])] else [])
  {
    var n := |rows| - 1;
    var init := ByWeek(rows[..n], column[..n]);
    match column[n]
    case None =>
      assert ByWeek(rows, column) == init + [];
      assert init + [] == init;
    case Some(week) =>
      var w := init + [Keyed([Word(week)], rows[n].deliveryPersonId)];
      assert ByWeek(rows, column) == w;
      assert w[..|w| - 1] == init;
      ValuesOfLast(w, [Word(s)]);
  }

  /** Every key of the keyed rows is the week of some row's column entry. */
  lemma {:induction false} ByWeekKeys(rows: seq<Order>, column: seq<Option<string>>)
    requires |column| == |rows|
    ensures forall i :: 0 <= i < |ByWeek(rows, column)| ==>
              exists j :: 0 <= j < |rows| && column[j].Some? && ByWeek(rows, column)[i].key == [Word(column[j].value)]
  {
    if |rows| > 0 {
      var n := |rows| - 1;
      var pre := column[..n];
      var init := ByWeek(rows[..n], pre);
      var tail := match column[n]
        case Some(week) => [Keyed([Word(week)], rows[n].deliveryPersonId)]
        case None => [];
      var w := ByWeek(rows, column);
      ByWeekKeys(rows[..n], pre);
      assert w == init + tail;
      forall i | 0 <= i < |w|
        ensures exists j :: 0 <= j < |rows| && column[j].Some? && w[i].key == [Word(column[j].value)]
      {
        if i < |init| {
          assert w[i] == init[i];
          assert exists j :: 0 <= j < |rows[..n]| && pre[j].Some? && init[i].key == [Word(pre[j].value)];
          var j :| 0 <= j < |rows[..n]| && pre[j].Some? && init[i].key == [Word(pre[j].value)];
          assert column[j] == pre[j];
        } else {
          assert column[n].Some? && w[i].key == [Word(column[n].value)];
        }
      }
    } else {
      assert ByWeek(rows, column) == [];
    }
  }

  /** The week-`s` group of the keyed rows is the couriers of the rows dated
      in week `s`, in row order, and the key occurs once per such row. */
  lemma {:induction false} WeekGroupOfRows(rows: seq<Order>, s: string)
    requires DatesValid(rows)
    ensures ValuesOf(ByWeek(rows, WeekColumn(rows)), [Word(s)]) == Column(Series.Filter(rows, InWeek(s)), CourierOf)
    ensures multiset(KeysOf(ByWeek(rows, WeekColumn(rows))))[[Word(s)]] == |Series.Filter(rows, InWeek(s))|
  {
    WeekColumnMarks(rows, s);
    ByWeekGroup(rows, WeekColumn(rows), s);
  }

  /** Every key of the weekly rows is one week text, spelled by some dated row. */
  lemma {:induction false} WeekKeysOfRows(rows: seq<Order>, k: Key)
    requires DatesValid(rows) && k in KeysOf(ByWeek(rows, WeekColumn(rows)))
    ensures |k| == 1 && k[0].Word?
    ensures exists j :: 0 <= j < |rows| && rows[j].orderDate.Some? && k == [Word(Calendar.WeekText(rows[j].orderDate.value))]
  {
    var column := WeekColumn(rows);
    var w := ByWeek(rows, column);
    ByWeekKeys(rows, column);
    var i :| 0 <= i < |w| && KeysOf(w)[i] == k;
    var j :| 0 <= j < |rows| && column[j].Some? && w[i].key == [Word(column[j].value)];
    assert rows[j].orderDate.Some? && column[j].value == Calendar.WeekText(rows[j].orderDate.value);
  }

  /** A dated row's week is a key of the weekly rows. */
  lemma {:induction false} DatedRowHasWeek(rows: seq<Order>, j: nat)
    requires DatesValid(rows) && j < |rows| && rows[j].orderDate.Some?
    ensures [Word(Calendar.WeekText(rows[j].orderDate.value))] in KeysOf(ByWeek(rows, WeekColumn(rows)))
  {
    var s := Calendar.WeekText(rows[j].orderDate.value);
    WeekGroupOfRows(rows, s);
    Series.FilterCounts(rows, InWeek(s));
    assert rows[j] in multiset(rows);
    assert multiset(Series.Filter(rows, InWeek(s)))[rows[j]] > 0;
    assert multiset(KeysOf(ByWeek(rows, WeekColumn(rows))))[[Word(s)]] > 0;
  }

  /** `t` counts the orders of each `%U` week of `rows`: weeks ascending, one
      entry for each week some dated row falls in, each entry a single week
      text with the number of rows dated in that week. */
  predicate CountsPerWeek(rows: seq<Order>, t: seq<Counted>)
    requires DatesValid(rows)
  {
    && StrictlyAscending(Keys(t))
    && (forall i :: 0 <= i < |t| ==>
          && |t[i].key| == 1 && t[i].key[0].Word?
          && 1 <= t[i].count == |Series.Filter(rows, InWeek(t[i].key[0].text))|)
    && (forall j :: 0 <= j < |rows| && rows[j].orderDate.Some? ==>
          [Word(Calendar.WeekText(rows[j].orderDate.value))] in Keys(t))
  }

  /** The `ID` count per `week_of_year` counts the rows dated in each week. */
  lemma {:induction false} OrderByWeekOfRows(rows: seq<Order>)
    requires DatesValid(rows)
    ensures CountsPerWeek(rows, CountTable(KeysOf(ByWeek(rows, WeekColumn(rows)))))
  {
    var keys := KeysOf(ByWeek(rows, WeekColumn(rows)));
    var t := CountTable(keys);
    CountTableProperties(keys);
    forall i | 0 <= i < |t|
      ensures |t[i].key| == 1 && t[i].key[0].Word?
      ensures 1 <= t[i].count == |Series.Filter(rows, InWeek(t[i].key[0].text))|
    {
      WeekKeysOfRows(rows, t[i].key);
      WeekGroupOfRows(rows, t[i].key[0].text);
      assert t[i].key == [Word(t[i].key[0].text)];
    }
    forall j | 0 <= j < |rows| && rows[j].orderDate.Some?
      ensures [Word(Calendar.WeekText(rows[j].orderDate.value))] in Keys(t)
    {
      DatedRowHasWeek(rows, j);
    }
  }

  /** One row of `order_share_by_week` after the merge: a week, its orders
      (`ID` count), its distinct couriers (`Delivery_person_ID` nunique). */
  datatype Merged = Merged(week: Key, orders: nat, couriers: nat)

  /** The same row with `order_by_deliver`. */
  datatype WeekShare = WeekShare(week: Key, orders: nat, couriers: nat, ordersPerCourier: real)

  /** The index of the first entry of `b` with key `k`. */
  function FindKey(b: seq<Counted>, k: Key): (r: Option<nat>)
    ensures r.Some? ==> r.value < |b| && b[r.value].key == k
    ensures r.Some? ==> forall j :: 0 <= j < r.value ==> b[j].key != k
    ensures r.None? ==> forall j :: 0 <= j < |b| ==> b[j].key != k
  {
    if |b| == 0 then None
    else if b[0].key == k then Some(0)
    else
      match FindKey(b[1..], k)
      case None => None
      case Some(j) => Some(j + 1)
  }

  /** `pd.merge(a, b, how='inner')` on the shared key column: each entry of
      `a`, in its order, joined with the entry of `b` that has its key. */
  function InnerMerge(a: seq<Counted>, b: seq<Counted>): (m: seq<Merged>)
    ensures |m| <= |a|
  {
    if |a| == 0 then []
    else
      var n := |a| - 1;
      InnerMerge(a[..n], b)
      + match FindKey(b, a[n].key)
        case Some(j) => [Merged(a[n].key, a[n].count, b[j].count)]
        case None => []
  }

  /** In a table with distinct keys, each key is found at its own entry. */
  lemma {:induction false} FindDistinct(b: seq<Counted>, j: nat)
    requires Distinct(Keys(b)) && j < |b|
    ensures FindKey(b, b[j].key) == Some(j)
  {
    if j > 0 {
      assert Keys(b)[0] != Keys(b)[j];
      assert Keys(b[1..]) == Keys(b)[1..];
      FindDistinct(b[1..], j - 1);
    }
  }

  /** Two tables over the same distinct keys merge entry by entry. */
  lemma {:induction false} MergeSameKeys(a: seq<Counted>, b: seq<Counted>, k: nat)
    requires Keys(a) == Keys(b) && Distinct(Keys(b)) && k <= |a|
    ensures |InnerMerge(a[..k], b)| == k
    ensures forall i :: 0 <= i < k ==> InnerMerge(a[..k], b)[i] == Merged(a[i].key, a[i].count, b[i].count)
  {
    if k > 0 {
      MergeSameKeys(a, b, k - 1);
      assert a[..k][..k - 1] == a[..k - 1];
      assert a[..k][k - 1] == a[k - 1];
      assert Keys(b)[k - 1] == a[k - 1].key;
      FindDistinct(b, k - 1);
    }
  }

  /** The merged weekly table with the orders per courier of each week. */
  function WeekShares(w: seq<Keyed<string>>): seq<WeekShare> {
    WeekSharesNonZero(w);
    Ratios(InnerMerge(CountTable(KeysOf(w)), NuniqueTable(w)))
  }

  /** `order_by_deliver`: each week's orders over its couriers. */
  function Ratios(merged: seq<Merged>): (r: seq<WeekShare>)
    requires forall i :: 0 <= i < |merged| ==> merged[i].couriers >= 1
    ensures |r| == |merged|
  {
    seq(|merged|, i requires 0 <= i < |merged| =>
      WeekShare(merged[i].week, merged[i].orders, merged[i].couriers,
                merged[i].orders as real / merged[i].couriers as real))
  }

  /** Each ratio keeps its week's counts, times the couriers gives the orders,
      and is at least 1 where the couriers do not outnumber the orders. */
  lemma {:induction false} RatiosProperties(merged: seq<Merged>)
    requires forall i :: 0 <= i < |merged| ==> 1 <= merged[i].couriers <= merged[i].orders
    ensures forall i :: 0 <= i < |merged| ==>
              && Ratios(merged)[i].week == merged[i].week
              && Ratios(merged)[i].orders == merged[i].orders
              && Ratios(merged)[i].couriers == merged[i].couriers
    ensures forall i :: 0 <= i < |merged| ==>
              && Ratios(merged)[i].ordersPerCourier == merged[i].orders as real / (merged[i].couriers as real)
              && Ratios(merged)[i].ordersPerCourier >= 1.0
  {
    forall i | 0 <= i < |merged|
      ensures Ratios(merged)[i].ordersPerCourier == merged[i].orders as real / (merged[i].couriers as real)
      ensures Ratios(merged)[i].ordersPerCourier >= 1.0
    {
      RatioAtLeastOne(merged[i].orders as real, merged[i].couriers as real);
    }
  }

  /** The table as `order_by_week` leaves it: the rows, and the
      `week_of_year` column once a call has added it. */
  class Frame {
    var rows: seq<Order>
    var weekOfYear: Option<seq<Option<string>>>

    predicate Valid()
      reads this
    {
      DatesValid(rows) && (weekOfYear.Some? ==> weekOfYear.value == WeekColumn(rows))
    }

    /** The filtered table the page starts from, without the column. */
    constructor (rows: seq<Order>)
      requires DatesValid(rows)
      ensures Valid() && this.rows == rows && weekOfYear == None
    {
      this.rows := rows;
      weekOfYear := None;
    }

    /** `order_by_week(df1)`: adds `week_of_year` to the table, then counts
        the orders of each week. */
    method OrderByWeek() returns (t: seq<Counted>)
      requires Valid()
      modifies this
      ensures Valid() && rows == old(rows) && weekOfYear == Some(WeekColumn(rows))
      ensures t == CountTable(KeysOf(ByWeek(rows, WeekColumn(rows))))
      ensures CountsPerWeek(rows, t)
    {
      weekOfYear := Some(WeekColumn(rows));
      t := CountTable(KeysOf(ByWeek(rows, weekOfYear.value)));
      OrderByWeekOfRows(rows);
    }

    /** `order_share_by_week(df1)`: orders per distinct courier in each week.
        Without the `week_of_year` column the selection raises `KeyError`. */
    function OrderShareByWeek(): (r: Result<seq<WeekShare>, string>)
      requires Valid()
      reads this
      ensures r.Err? <==> weekOfYear.None?
      ensures r.Err? ==> r.error == "week_of_year"
    {
      match weekOfYear
      case None => Err("week_of_year")
      case Some(column) =>
        Ok(WeekShares(ByWeek(rows, column)))
    }
  }

  /** After the merge, every week has at least one courier and at most as
      many couriers as orders, with the week's counts. */
  lemma {:induction false} WeekSharesMerge(w: seq<Keyed<string>>)
    ensures |InnerMerge(CountTable(KeysOf(w)), NuniqueTable(w))| == |GroupKeys(KeysOf(w))|
    ensures forall i :: 0 <= i < |GroupKeys(KeysOf(w))| ==>
              var m := InnerMerge(CountTable(KeysOf(w)), NuniqueTable(w))[i];
              && m.week == GroupKeys(KeysOf(w))[i]
              && m.orders == CountTable(KeysOf(w))[i].count
              && m.couriers == NuniqueTable(w)[i].count
              && 1 <= m.couriers <= m.orders
  {
    var g := GroupKeys(KeysOf(w));
    var a := CountTable(KeysOf(w));
    var b := NuniqueTable(w);
    assert Keys(a) == g && Keys(b) == g;
    AscendingIsDistinct(g);
    MergeEqualKeys(a, b);
    NuniqueBetween(w);
    forall i | 0 <= i < |g| ensures b[i].count <= a[i].count {
      assert a[i].count == multiset(KeysOf(w))[g[i]];
    }
  }

  /** Two tables with the same distinct keys in the same order merge entry by
      entry. */
  lemma {:induction false} MergeEqualKeys(a: seq<Counted>, b: seq<Counted>)
    requires Keys(a) == Keys(b) && Distinct(Keys(b))
    ensures |InnerMerge(a, b)| == |a|
    ensures forall i :: 0 <= i < |a| ==> InnerMerge(a, b)[i] == Merged(a[i].key, a[i].count, b[i].count)
  {
    MergeSameKeys(a, b, |a|);
    assert a[..|a|] == a;
  }

  lemma {:induction false} WeekSharesNonZero(w: seq<Keyed<string>>)
    ensures forall i :: 0 <= i < |InnerMerge(CountTable(KeysOf(w)), NuniqueTable(w))| ==>
              InnerMerge(CountTable(KeysOf(w)), NuniqueTable(w))[i].couriers >= 1
  {
    WeekSharesMerge(w);
  }

  /** `order_share_by_week` on the table `order_by_week` left: weeks
      ascending, one entry for each week some dated row falls in; each entry
      a single week text with the number of rows dated in that week, the
      number of distinct couriers among those rows, at least 1 and at most
      the orders, and their ratio, at least 1. */
  lemma {:induction false} OrderShareByWeekProperties(f: Frame)
    requires f.Valid() && f.weekOfYear.Some?
    ensures var shares := f.OrderShareByWeek().value;
            && (forall i, j :: 0 <= i < j < |shares| ==> KeyLess(shares[i].week, shares[j].week))
            && (forall i :: 0 <= i < |shares| ==> WeekShareOfRows(f.rows, shares[i]))
            && (forall j :: 0 <= j < |f.rows| && f.rows[j].orderDate.Some? ==>
                 exists i :: 0 <= i < |shares| && shares[i].week == [Word(Calendar.WeekText(f.rows[j].orderDate.value))])
  {
    assert f.OrderShareByWeek().value == WeekShares(ByWeek(f.rows, WeekColumn(f.rows)));
    WeekSharesOfRows(f.rows);
  }

  /** What one weekly entry says about the rows: a single week text, the
      number of rows dated in that week, the number of distinct couriers
      among those rows, at least 1 and at most the orders, and their ratio,
      at least 1. */
  predicate WeekShareOfRows(rows: seq<Order>, e: WeekShare) {
    && |e.week| == 1 && e.week[0].Word?
    && var week := Series.Filter(rows, InWeek(e.week[0].text));
       && e.orders == |week|
       && e.couriers == |set id | id in Column(week, CourierOf)|
       && 1 <= e.couriers <= e.orders
       && e.ordersPerCourier == e.orders as real / (e.couriers as real)
       && e.ordersPerCourier >= 1.0
  }

  lemma {:induction false} WeekSharesOfRows(rows: seq<Order>)
    requires DatesValid(rows)
    ensures var shares := WeekShares(ByWeek(rows, WeekColumn(rows)));
            && (forall i, j :: 0 <= i < j < |shares| ==> KeyLess(shares[i].week, shares[j].week))
            && (forall i :: 0 <= i < |shares| ==> WeekShareOfRows(rows, shares[i]))
            && (forall j :: 0 <= j < |rows| && rows[j].orderDate.Some? ==>
                 exists i :: 0 <= i < |shares| && shares[i].week == [Word(Calendar.WeekText(rows[j].orderDate.value))])
  {
    var shares := WeekShares(ByWeek(rows, WeekColumn(rows)));
    WeekSharesInGroupOrder(ByWeek(rows, WeekColumn(rows)));
    forall i | 0 <= i < |shares| ensures WeekShareOfRows(rows, shares[i]) {
      WeekEntryOfRows(rows, i);
    }
    forall j | 0 <= j < |rows| && rows[j].orderDate.Some?
      ensures exists i :: 0 <= i < |shares| && shares[i].week == [Word(Calendar.WeekText(rows[j].orderDate.value))]
    {
      var i := WeekEntryOfDatedRow(rows, j);
    }
  }

  /** A dated row's week has a weekly entry. */
  lemma {:induction false} WeekEntryOfDatedRow(rows: seq<Order>, j: nat) returns (i: nat)
    requires DatesValid(rows) && j < |rows| && rows[j].orderDate.Some?
    ensures i < |WeekShares(ByWeek(rows, WeekColumn(rows)))|
    ensures WeekShares(ByWeek(rows, WeekColumn(rows)))[i].week == [Word(Calendar.WeekText(rows[j].orderDate.value))]
  {
    var w := ByWeek(rows, WeekColumn(rows));
    var g := GroupKeys(KeysOf(w));
    DatedRowHasWeek(rows, j);
    WeekSharesInGroupOrder(w);
    i :| 0 <= i < |g| && g[i] == [Word(Calendar.WeekText(rows[j].orderDate.value))];
  }

  /** The weekly entries follow the group keys. */
  lemma {:induction false} WeekSharesInGroupOrder(w: seq<Keyed<string>>)
    ensures |WeekShares(w)| == |GroupKeys(KeysOf(w))|
    ensures forall i :: 0 <= i < |WeekShares(w)| ==> WeekShares(w)[i].week == GroupKeys(KeysOf(w))[i]
    ensures forall i, j :: 0 <= i < j < |WeekShares(w)| ==> KeyLess(WeekShares(w)[i].week, WeekShares(w)[j].week)
  {
    SharesOfWeeks(w);
  }

  /** One weekly entry, stated over the rows. */
  lemma {:induction false} WeekEntryOfRows(rows: seq<Order>, i: nat)
    requires DatesValid(rows) && i < |WeekShares(ByWeek(rows, WeekColumn(rows)))|
    ensures WeekShareOfRows(rows, WeekShares(ByWeek(rows, WeekColumn(rows)))[i])
  {
    var w := ByWeek(rows, WeekColumn(rows));
    var k := GroupKeys(KeysOf(w))[i];
    var e := WeekShares(w)[i];
    SharesOfWeeks(w);
    WeekSharesCouriers(w);
    assert e.week == k && k in KeysOf(w);
    WeekKeysOfRows(rows, k);
    WeekGroupOfRows(rows, k[0].text);
    assert k == [Word(k[0].text)];
  }

  /** The couriers of each weekly entry are the distinct values of its group. */
  lemma {:induction false} WeekSharesCouriers(w: seq<Keyed<string>>)
    ensures forall i :: 0 <= i < |WeekShares(w)| ==>
              WeekShares(w)[i].couriers == |set v | v in ValuesOf(w, GroupKeys(KeysOf(w))[i])|
  {
    var g := GroupKeys(KeysOf(w));
    var b := NuniqueTable(w);
    var merged := InnerMerge(CountTable(KeysOf(w)), b);
    WeekSharesMerge(w);
    assert WeekShares(w) == Ratios(merged);
    forall i | 0 <= i < |WeekShares(w)|
      ensures WeekShares(w)[i].couriers == |set v | v in ValuesOf(w, g[i])|
    {
      assert WeekShares(w)[i].couriers == merged[i].couriers == b[i].count;
      assert b[i] == Counted(g[i], |set v | v in ValuesOf(w, g[i])|);
    }
  }

  lemma {:induction false} SharesOfWeeks(w: seq<Keyed<string>>)
    ensures |WeekShares(w)| == |GroupKeys(KeysOf(w))|
    ensures forall i :: 0 <= i < |WeekShares(w)| ==>
              && WeekShares(w)[i].week == GroupKeys(KeysOf(w))[i]
              && WeekShares(w)[i].orders == multiset(KeysOf(w))[GroupKeys(KeysOf(w))[i]]
              && 1 <= WeekShares(w)[i].couriers <= WeekShares(w)[i].orders
              && WeekShares(w)[i].ordersPerCourier == WeekShares(w)[i].orders as real / (WeekShares(w)[i].couriers as real)
              && WeekShares(w)[i].ordersPerCourier >= 1.0
  {
    var merged := InnerMerge(CountTable(KeysOf(w)), NuniqueTable(w));
    WeekSharesMerge(w);
    CountsAreCounts(KeysOf(w));
    RatiosProperties(merged);
    assert WeekShares(w) == Ratios(merged);
  }

  lemma {:induction false} RatioAtLeastOne(orders: real, couriers: real)
    requires 1.0 <= couriers <= orders
    ensures orders / couriers * couriers == orders && orders / couriers >= 1.0
  {
  }

  /** The weekly tab as the page runs it: `order_by_week` first, which adds the
      column, then `order_share_by_week`, which therefore succeeds. */
  method WeeklyTab(rows: seq<Order>) returns (weeks: seq<Counted>, shares: Result<seq<WeekShare>, string>)
    requires DatesValid(rows)
    ensures CountsPerWeek(rows, weeks)
    ensures shares.Ok? && |shares.value| == |weeks|
    ensures forall i :: 0 <= i < |weeks| ==>
              shares.value[i].week == weeks[i].key && shares.value[i].orders == weeks[i].count
  {
    var frame := new Frame(rows);
    weeks := frame.OrderByWeek();
    shares := frame.OrderShareByWeek();
    var w := ByWeek(rows, WeekColumn(rows));
    SharesOfWeeks(w);
    CountsAreCounts(KeysOf(w));
  }

  /** The weeks of the data's first days: 1 January 2022 was a Saturday, so it
      lies before the year's first Sunday, in week 00; 2 January opens week 01;
      11 February, the slider's earliest day, is in week 06. */
  lemma {:induction false} WeekExamples()
    ensures Calendar.WeekText(Calendar.Date(2022, 1, 1)) == "00"
    ensures Calendar.WeekText(Calendar.Date(2022, 1, 2)) == "01"
    ensures Calendar.WeekText(Calendar.Date(2022, 2, 11)) == "06"
  {
    Calendar.NewYear2022IsSaturday();
    Calendar.WeekdayFromNewYear(Calendar.Date(2022, 1, 2));
    Calendar.WeekdayFromNewYear(Calendar.Date(2022, 2, 11));
  }
}
