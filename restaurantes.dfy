/** The restaurants page: mean delivery times grouped by festival, by city,
    by city and traffic density and by city and type of order, and the
    number of distinct couriers of the selected rows. Standard deviations
    and the rounding to two decimals are not part of this model. */
module Restaurantes {
  import opened Wrappers
  import Calendar
  import Series
  import opened Grouping
  import opened Orders

  function TimeTaken(o: Order): int {
    o.timeTaken
  }

  function FestivalKey(o: Order): Key {
    [Word(o.festival)]
  }

  function CityKey(o: Order): Key {
    [Word(o.city)]
  }

  function CityTrafficKey(o: Order): Key {
    [Word(o.city), Word(o.traffic)]
  }

  function CityOrderTypeKey(o: Order): Key {
    [Word(o.city), Word(o.typeOfOrder)]
  }

  /** `.groupby(key).agg({'Time_taken(min)': 'mean'})`, flattened by
      `reset_index`: one entry per key, ascending. */
  function MeansBy(rows: seq<Order>, key: Order -> Key): seq<Averaged> {
    MeanTable(Tag(rows, key, TimeTaken))
  }

  // ---------------------------------------------------------------------------
  // avg_std_time_delivery(df1, festival, 'avg_time')
  // ---------------------------------------------------------------------------

  /** `df_aux.loc[df_aux[key] == k, 'avg_time']`: the mean of every entry
      whose key is `k`, in table order; empty when there is none. */
  function Lookup(t: seq<Averaged>, k: Key): (sel: seq<real>)
    ensures |sel| <= |t|
  {
    if |t| == 0 then []
    else Lookup(t[..|t| - 1], k) + (if t[|t| - 1].key == k then [t[|t| - 1].mean] else [])
  }

  /** In a table whose keys do not repeat, the lookup finds the one entry of
      the key, or nothing when the key is absent. */
  lemma {:induction false} LookupDistinct(t: seq<Averaged>, k: Key)
    requires Distinct(AveragedKeys(t))
    ensures k !in AveragedKeys(t) ==> Lookup(t, k) == []
    ensures k in AveragedKeys(t) ==> exists i :: 0 <= i < |t| && t[i].key == k && Lookup(t, k) == [t[i].mean]
  {
    if |t| > 0 {
      var init := t[..|t| - 1];
      var last := t[|t| - 1];
      assert Distinct(AveragedKeys(init)) by {
        forall i, j | 0 <= i < j < |init| ensures AveragedKeys(init)[i] != AveragedKeys(init)[j] {
          assert AveragedKeys(t)[i] != AveragedKeys(t)[j];
        }
      }
      LookupDistinct(init, k);
      if last.key == k {
        assert k !in AveragedKeys(init) by {
          forall i | 0 <= i < |init| ensures AveragedKeys(init)[i] != k {
            assert AveragedKeys(t)[i] != AveragedKeys(t)[|t| - 1];
          }
        }
        assert Lookup(t, k) == [t[|t| - 1].mean];
      } else if k in AveragedKeys(init) {
        var i :| 0 <= i < |init| && init[i].key == k && Lookup(init, k) == [init[i].mean];
        assert t[i] == init[i];
      } else {
        assert k !in AveragedKeys(t) by {
          forall i | 0 <= i < |t| ensures AveragedKeys(t)[i] != k {
            if i < |init| {
              assert AveragedKeys(init)[i] == AveragedKeys(t)[i];
            }
          }
        }
      }
    }
  }

  function FestivalMeans(rows: seq<Order>): seq<Averaged> {
    MeansBy(rows, FestivalKey)
  }

  /** The mean delivery time of the rows whose Festival column is `festival`,
      as the selection the page shows: one value, or none. */
  function AvgTimeDelivery(rows: seq<Order>, festival: string): seq<real> {
    Lookup(FestivalMeans(rows), [Word(festival)])
  }

  function OnFestival(festival: string): Order -> bool {
    (o: Order) => o.festival == festival
  }

  /** The times of the rows of one festival value. */
  function FestivalTimes(rows: seq<Order>, festival: string): seq<int> {
    Column(Series.Filter(rows, OnFestival(festival)), TimeTaken)
  }

  /** At most one value; none exactly when no row has that festival value;
      otherwise the sum of those rows' times over their number, between
      their smallest and largest time. */
  lemma {:induction false} AvgTimeDeliveryProperties(rows: seq<Order>, festival: string)
    ensures |AvgTimeDelivery(rows, festival)| <= 1
    ensures AvgTimeDelivery(rows, festival) == [] <==> forall i :: 0 <= i < |rows| ==> rows[i].festival != festival
    ensures |AvgTimeDelivery(rows, festival)| == 1 ==>
              && |FestivalTimes(rows, festival)| > 0
              && AvgTimeDelivery(rows, festival)[0]
                 == Sum(FestivalTimes(rows, festival)) as real / |FestivalTimes(rows, festival)| as real
              && Min(FestivalTimes(rows, festival)) as real <= AvgTimeDelivery(rows, festival)[0]
                 <= Max(FestivalTimes(rows, festival)) as real
  {
    var t := FestivalMeans(rows);
    var k := [Word(festival)];
    MeanTableKeys(rows, FestivalKey, TimeTaken);
    AscendingIsDistinct(AveragedKeys(t));
    LookupDistinct(t, k);
    forall i | 0 <= i < |rows| ensures FestivalKey(rows[i]) == k <==> rows[i].festival == festival {
    }
    if k in AveragedKeys(t) {
      var i :| 0 <= i < |t| && t[i].key == k && AvgTimeDelivery(rows, festival) == [t[i].mean];
      MeanOfGroup(rows, FestivalKey, TimeTaken, i);
      Series.FilterSame(rows, HasKey(FestivalKey, k), OnFestival(festival));
    }
  }

  // ---------------------------------------------------------------------------
  // avg_std_time_graph, avg_std_time_on_traffic, the City/Type_of_order table
  // ---------------------------------------------------------------------------

  /** The mean time per city, for the bar chart. */
  function CityMeans(rows: seq<Order>): seq<Averaged> {
    MeansBy(rows, CityKey)
  }

  /** The mean time per (city, traffic density), for the sunburst chart. */
  function CityTrafficMeans(rows: seq<Order>): seq<Averaged> {
    MeansBy(rows, CityTrafficKey)
  }

  /** The mean time per (city, type of order), for the table. */
  function CityOrderTypeMeans(rows: seq<Order>): seq<Averaged> {
    MeansBy(rows, CityOrderTypeKey)
  }

  /** The cities of the rows. */
  function Cities(rows: seq<Order>): set<string> {
    set i | 0 <= i < |rows| :: rows[i].city
  }

  /** One bar per city present, in ascending order, each bar the mean of
      the city's rows and between its fastest and slowest delivery. */
  lemma {:induction false} CityMeansProperties(rows: seq<Order>)
    ensures |CityMeans(rows)| == |Cities(rows)|
    ensures StrictlyAscending(AveragedKeys(CityMeans(rows)))
    ensures forall c :: [Word(c)] in AveragedKeys(CityMeans(rows)) <==> c in Cities(rows)
    ensures forall i :: 0 <= i < |CityMeans(rows)| ==> GroupMean(rows, CityKey, TimeTaken, CityMeans(rows)[i])
  {
    MeanTableOfRows(rows, CityKey, TimeTaken);
    CityTable(rows);
  }

  lemma {:induction false} CityTable(rows: seq<Order>)
    ensures |CityMeans(rows)| == |Cities(rows)|
    ensures forall c :: [Word(c)] in AveragedKeys(CityMeans(rows)) <==> c in Cities(rows)
  {
    MeanTableSize(rows, CityKey, TimeTaken);
    CityKeysCount(rows);
    CityKeyMembers(rows);
  }

  lemma {:induction false} CityKeyMembers(rows: seq<Order>)
    ensures forall c :: [Word(c)] in AveragedKeys(CityMeans(rows)) <==> c in Cities(rows)
  {
    MeanTableKeys(rows, CityKey, TimeTaken);
    forall c ensures [Word(c)] in AveragedKeys(CityMeans(rows)) <==> c in Cities(rows) {
      if c in Cities(rows) {
        var i :| 0 <= i < |rows| && rows[i].city == c;
        assert CityKey(rows[i]) == [Word(c)];
      }
    }
  }

  /** As many distinct city keys as cities: the key is the city alone. */
  lemma {:induction false} CityKeysCount(rows: seq<Order>)
    ensures |KeySet(rows, CityKey)| == |Cities(rows)|
  {
    var keys := KeySet(rows, CityKey);
    var wrapped := set c | c in Cities(rows) :: [Word(c)];
    forall x ensures x in keys <==> x in wrapped {
      if x in wrapped {
        var c :| c in Cities(rows) && x == [Word(c)];
        var i :| 0 <= i < |rows| && rows[i].city == c;
        assert CityKey(rows[i]) == x;
      }
    }
    assert keys == wrapped;
    WrapCount(Cities(rows));
  }

  lemma {:induction false} WrapCount(cs: set<string>)
    ensures |set c | c in cs :: [Word(c)]| == |cs|
    decreases |cs|
  {
    if cs != {} {
      var c :| c in cs;
      var rest := cs - {c};
      WrapCount(rest);
      assert (set x | x in cs :: [Word(x)]) == (set x | x in rest :: [Word(x)]) + {[Word(c)]};
      assert [Word(c)] !in (set x | x in rest :: [Word(x)]);
    }
  }

  /** The pairs of two text columns of the rows. */
  function ColumnPairs(rows: seq<Order>, first: Order -> string, second: Order -> string): set<(string, string)> {
    set i | 0 <= i < |rows| :: (first(rows[i]), second(rows[i]))
  }

  /** A key made of two text columns has as many distinct values as the
      pairs of those columns, and is a key of the table exactly when its pair
      occurs in some row. */
  lemma {:induction false} PairKeyTable(rows: seq<Order>, key: Order -> Key, first: Order -> string, second: Order -> string)
    requires forall i :: 0 <= i < |rows| ==> key(rows[i]) == [Word(first(rows[i])), Word(second(rows[i]))]
    ensures |MeanTable(Tag(rows, key, TimeTaken))| == |ColumnPairs(rows, first, second)|
    ensures forall c, d :: [Word(c), Word(d)] in AveragedKeys(MeanTable(Tag(rows, key, TimeTaken))) <==>
              (c, d) in ColumnPairs(rows, first, second)
  {
    var pairs := ColumnPairs(rows, first, second);
    var keys := KeySet(rows, key);
    var wrapped := set p | p in pairs :: [Word(p.0), Word(p.1)];
    forall x ensures x in keys <==> x in wrapped {
      if x in keys {
        var i :| 0 <= i < |rows| && key(rows[i]) == x;
        var p := (first(rows[i]), second(rows[i]));
        assert p in pairs;
        assert x == [Word(p.0), Word(p.1)];
      }
      if x in wrapped {
        var p :| p in pairs && x == [Word(p.0), Word(p.1)];
        var i :| 0 <= i < |rows| && (first(rows[i]), second(rows[i])) == p;
        assert key(rows[i]) == x;
      }
    }
    assert keys == wrapped;
    PairWrapCount(pairs);
    MeanTableSize(rows, key, TimeTaken);
    MeanTableKeys(rows, key, TimeTaken);
    forall c, d ensures [Word(c), Word(d)] in AveragedKeys(MeanTable(Tag(rows, key, TimeTaken))) <==> (c, d) in pairs {
      if (c, d) in pairs {
        var i :| 0 <= i < |rows| && (first(rows[i]), second(rows[i])) == (c, d);
        assert key(rows[i]) == [Word(c), Word(d)];
      }
    }
  }

  lemma {:induction false} PairWrapCount(ps: set<(string, string)>)
    ensures |set p | p in ps :: [Word(p.0), Word(p.1)]| == |ps|
    decreases |ps|
  {
    if ps != {} {
      var p :| p in ps;
      var rest := ps - {p};
      PairWrapCount(rest);
      assert (set x | x in ps :: [Word(x.0), Word(x.1)]) == (set x | x in rest :: [Word(x.0), Word(x.1)]) + {[Word(p.0), Word(p.1)]};
      assert [Word(p.0), Word(p.1)] !in (set x | x in rest :: [Word(x.0), Word(x.1)]);
    }
  }

  function City(o: Order): string {
    o.city
  }

  function Traffic(o: Order): string {
    o.traffic
  }

  function OrderType(o: Order): string {
    o.typeOfOrder
  }

  /** One sector per (city, traffic density) pair present, in ascending
      order, each the mean of that pair's rows. */
  lemma {:induction false} CityTrafficMeansProperties(rows: seq<Order>)
    ensures |CityTrafficMeans(rows)| == |ColumnPairs(rows, City, Traffic)|
    ensures StrictlyAscending(AveragedKeys(CityTrafficMeans(rows)))
    ensures forall c, d :: [Word(c), Word(d)] in AveragedKeys(CityTrafficMeans(rows)) <==> (c, d) in ColumnPairs(rows, City, Traffic)
    ensures forall i :: 0 <= i < |CityTrafficMeans(rows)| ==> GroupMean(rows, CityTrafficKey, TimeTaken, CityTrafficMeans(rows)[i])
  {
    MeanTableOfRows(rows, CityTrafficKey, TimeTaken);
    PairKeyTable(rows, CityTrafficKey, City, Traffic);
  }

  /** One row per (city, type of order) pair present, in ascending order,
      each the mean of that pair's rows. */
  lemma {:induction false} CityOrderTypeMeansProperties(rows: seq<Order>)
    ensures |CityOrderTypeMeans(rows)| == |ColumnPairs(rows, City, OrderType)|
    ensures StrictlyAscending(AveragedKeys(CityOrderTypeMeans(rows)))
    ensures forall c, d :: [Word(c), Word(d)] in AveragedKeys(CityOrderTypeMeans(rows)) <==> (c, d) in ColumnPairs(rows, City, OrderType)
    ensures forall i :: 0 <= i < |CityOrderTypeMeans(rows)| ==> GroupMean(rows, CityOrderTypeKey, TimeTaken, CityOrderTypeMeans(rows)[i])
  {
    MeanTableOfRows(rows, CityOrderTypeKey, TimeTaken);
    PairKeyTable(rows, CityOrderTypeKey, City, OrderType);
  }

  // ---------------------------------------------------------------------------
  // delivery_unique
  // ---------------------------------------------------------------------------

  function CourierId(o: Order): string {
    o.deliveryPersonId
  }

  /** `len(df1.loc[:, 'Delivery_person_ID'].unique())`. */
  function DeliveryUnique(rows: seq<Order>): nat {
    |set id | id in Column(rows, CourierId)|
  }

  /** No more couriers than rows, none exactly for an empty selection, and as
      many as rows when no courier repeats. */
  lemma {:induction false} DeliveryUniqueBounds(rows: seq<Order>)
    ensures DeliveryUnique(rows) <= |rows|
    ensures DeliveryUnique(rows) == 0 <==> |rows| == 0
    ensures (forall i, j :: 0 <= i < j < |rows| ==> rows[i].deliveryPersonId != rows[j].deliveryPersonId) ==>
              DeliveryUnique(rows) == |rows|
  {
    var ids := Column(rows, CourierId);
    var unique := set x | x in ids;
    DistinctCount(ids);
    assert DeliveryUnique(rows) == |unique|;
    if |rows| > 0 {
      assert ids[0] in unique;
      assert |unique - {ids[0]}| == |unique| - 1;
    }
    if forall i, j :: 0 <= i < j < |rows| ==> rows[i].deliveryPersonId != rows[j].deliveryPersonId {
      assert Distinct(ids) by {
        forall i, j | 0 <= i < j < |ids| ensures ids[i] != ids[j] {
          assert ids[i] == rows[i].deliveryPersonId && ids[j] == rows[j].deliveryPersonId;
        }
      }
    }
  }
}
