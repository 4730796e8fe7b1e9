/** The courier view, pages/2_visao_entregadores.py: the fastest and slowest
    couriers of each city, the overall age and vehicle-condition extremes,
    and the keys of the rating tables. */
module Entregadores {
  import opened Wrappers
  import Text
  import Series
  import opened Grouping
  import opened Orders

  // ---------------------------------------------------------------------------
  // The mean delivery time of each courier in each city
  // ---------------------------------------------------------------------------

  /** The group key of `top_delivers`: the city, then the courier. */
  function CityCourier(o: Order): Key {
    [Word(o.city), Word(o.deliveryPersonId)]
  }

  function TimeTaken(o: Order): int {
    o.timeTaken
  }

  /** `.groupby(['City', 'Delivery_person_ID']).mean()` of the delivery
      times. */
  function CourierMeans(rows: seq<Order>): seq<Averaged> {
    MeanTable(Tag(rows, CityCourier, TimeTaken))
  }

  /** The city of a grouped entry: the first part of its key. */
  function CityOf(e: Averaged): string {
    if |e.key| > 0 && e.key[0].Word? then e.key[0].text else ""
  }

  // ---------------------------------------------------------------------------
  // sort_values(['City', 'Time_taken(min)'], ascending=top_asc)
  // ---------------------------------------------------------------------------

  /** `a` sorts strictly before `b`: by city, then by mean time, both in the
      direction `asc` gives. */
  predicate Before(a: Averaged, b: Averaged, asc: bool) {
    if asc then Text.Less(CityOf(a), CityOf(b)) || (CityOf(a) == CityOf(b) && a.mean < b.mean)
    else Text.Less(CityOf(b), CityOf(a)) || (CityOf(a) == CityOf(b) && a.mean > b.mean)
  }

  /** Neither sorts before the other. */
  predicate Tied(a: Averaged, b: Averaged) {
    CityOf(a) == CityOf(b) && a.mean == b.mean
  }

  /** The order the sorted table has: the sort order, and among tied entries
      their order in the grouped table, which is by key, as the sort is
      stable. */
  predicate Precedes(a: Averaged, b: Averaged, asc: bool) {
    Before(a, b, asc) || (Tied(a, b) && KeyLess(a.key, b.key))
  }

  predicate SortedBy(s: seq<Averaged>, asc: bool) {
    forall i, j :: 0 <= i < j < |s| ==> Precedes(s[i], s[j], asc)
  }

  /** `x` placed after every entry that does not sort after it. */
  function InsertBy(s: seq<Averaged>, x: Averaged, asc: bool): (r: seq<Averaged>)
    ensures multiset(r) == multiset(s) + multiset{x}
  {
    if |s| == 0 then [x]
    else if Before(x, s[0], asc) then [x] + s
    else
      assert s == [s[0]] + s[1..];
      [s[0]] + InsertBy(s[1..], x, asc)
  }

  /** A stable sort: the entries are taken in table order and each is placed
      after the ones that do not sort after it. */
  function SortBy(s: seq<Averaged>, asc: bool): (r: seq<Averaged>)
    ensures multiset(r) == multiset(s)
  {
    if |s| == 0 then []
    else
      assert s == s[..|s| - 1] + [s[|s| - 1]];
      InsertBy(SortBy(s[..|s| - 1], asc), s[|s| - 1], asc)
  }

  lemma {:induction false} BeforeTransitive(a: Averaged, b: Averaged, c: Averaged, asc: bool)
    requires Before(a, b, asc) && Before(b, c, asc)
    ensures Before(a, c, asc)
  {
    var x, y, z := CityOf(a), CityOf(b), CityOf(c);
    if asc {
      if Text.Less(x, y) && Text.Less(y, z) {
        Text.LessTransitive(x, y, z);
      }
    } else {
      if Text.Less(y, x) && Text.Less(z, y) {
        Text.LessTransitive(z, y, x);
      }
    }
  }

  /** What does not sort before another sorts after it or ties with it. */
  lemma {:induction false} NotBefore(x: Averaged, y: Averaged, asc: bool)
    requires !Before(x, y, asc)
    ensures Before(y, x, asc) || Tied(y, x)
  {
    if CityOf(x) != CityOf(y) {
      Text.LessTotal(CityOf(x), CityOf(y));
    }
  }

  lemma {:induction false} PrecedesIrreflexive(a: Averaged, asc: bool)
    ensures !Precedes(a, a, asc)
  {
    Text.LessIrreflexive(CityOf(a));
    KeyLessIrreflexive(a.key);
  }

  /** Every entry that sorts after the first sorts after anything before the
      first. */
  lemma {:induction false} BeforeFirst(x: Averaged, s: seq<Averaged>, asc: bool)
    requires SortedBy(s, asc) && |s| > 0 && Before(x, s[0], asc)
    ensures forall j :: 0 <= j < |s| ==> Precedes(x, s[j], asc)
  {
    forall j | 0 < j < |s| ensures Precedes(x, s[j], asc) {
      if Before(s[0], s[j], asc) {
        BeforeTransitive(x, s[0], s[j], asc);
      }
    }
  }

  lemma {:induction false} InsertSorted(s: seq<Averaged>, x: Averaged, asc: bool)
    requires SortedBy(s, asc)
    requires forall i :: 0 <= i < |s| ==> KeyLess(s[i].key, x.key)
    ensures SortedBy(InsertBy(s, x, asc), asc)
  {
    if |s| > 0 {
      if Before(x, s[0], asc) {
        BeforeFirst(x, s, asc);
        ConsSorted(x, s, asc);
      } else {
        var tail := s[1..];
        assert forall i :: 0 <= i < |tail| ==> tail[i] == s[i + 1];
        InsertSorted(tail, x, asc);
        HeadPrecedesInsert(s, x, asc);
        ConsSorted(s[0], InsertBy(tail, x, asc), asc);
      }
    }
  }

  /** An entry that precedes every entry of a sorted sequence can be put in
      front of it. */
  lemma {:induction false} ConsSorted(h: Averaged, t: seq<Averaged>, asc: bool)
    requires SortedBy(t, asc)
    requires forall k :: 0 <= k < |t| ==> Precedes(h, t[k], asc)
    ensures SortedBy([h] + t, asc)
  {
    var r := [h] + t;
    forall i, j | 0 <= i < j < |r| ensures Precedes(r[i], r[j], asc) {
      assert r[j] == t[j - 1];
      if i > 0 {
        assert r[i] == t[i - 1];
      }
    }
  }

  /** The first entry of a sorted sequence precedes everything the insertion
      into the rest of it produces, when `x` does not sort before it and has
      the larger key. */
  lemma {:induction false} HeadPrecedesInsert(s: seq<Averaged>, x: Averaged, asc: bool)
    requires SortedBy(s, asc) && |s| > 0 && !Before(x, s[0], asc)
    requires KeyLess(s[0].key, x.key)
    ensures forall k :: 0 <= k < |InsertBy(s[1..], x, asc)| ==> Precedes(s[0], InsertBy(s[1..], x, asc)[k], asc)
  {
    var tail := InsertBy(s[1..], x, asc);
    NotBefore(x, s[0], asc);
    forall k | 0 <= k < |tail| ensures Precedes(s[0], tail[k], asc) {
      assert tail[k] in multiset(tail);
      if tail[k] != x {
        assert tail[k] in multiset(s[1..]);
        var m :| 0 <= m < |s[1..]| && s[1..][m] == tail[k];
        assert s[m + 1] == tail[k];
      }
    }
  }

  /** Sorting a table whose keys ascend gives the sort order, with ties in
      key order. */
  lemma {:induction false} SortSorted(s: seq<Averaged>, asc: bool)
    requires StrictlyAscending(AveragedKeys(s))
    ensures SortedBy(SortBy(s, asc), asc)
  {
    if |s| > 0 {
      var n := |s| - 1;
      var init := s[..n];
      assert forall i :: 0 <= i < n ==> AveragedKeys(init)[i] == AveragedKeys(s)[i];
      SortSorted(init, asc);
      var sorted := SortBy(init, asc);
      forall i | 0 <= i < |sorted| ensures KeyLess(sorted[i].key, s[n].key) {
        assert sorted[i] in multiset(init);
        var m :| 0 <= m < |init| && init[m] == sorted[i];
        assert AveragedKeys(s)[m] == sorted[i].key;
        assert AveragedKeys(s)[n] == s[n].key;
      }
      InsertSorted(sorted, s[n], asc);
    }
  }

  // ---------------------------------------------------------------------------
  // top_delivers
  // ---------------------------------------------------------------------------

  const BlockSize: nat := 10

  function CityIs(c: string): Averaged -> bool {
    e => CityOf(e) == c
  }

  /** `head(n)`: the first `n` entries, or all of them when there are fewer. */
  function Head<T>(s: seq<T>, n: nat): (h: seq<T>)
    ensures |h| == (if |s| <= n then |s| else n)
    ensures h == s[..|h|]
  {
    if |s| <= n then s else s[..n]
  }

  /** `df2.loc[df2['City'] == c, :].head(10)`. */
  function Block(sorted: seq<Averaged>, c: string): seq<Averaged> {
    Head(Series.Filter(sorted, CityIs(c)), BlockSize)
  }

  /** `top_delivers(df1, top_asc)`: the grouped means sorted, then the first
      ten couriers of each of the three cities, concatenated. */
  function TopDelivers(rows: seq<Order>, asc: bool): seq<Averaged> {
    var sorted := SortBy(CourierMeans(rows), asc);
    Block(sorted, "Metropolitian") + Block(sorted, "Urban") + Block(sorted, "Semi-Urban")
  }

  /** The position of a city's block in the result. */
  function CityRank(c: string): nat {
    if c == "Metropolitian" then 0 else if c == "Urban" then 1 else 2
  }

  predicate KnownCity(c: string) {
    c == "Metropolitian" || c == "Urban" || c == "Semi-Urban"
  }

  /** The couriers who delivered in city `c`. */
  function Couriers(rows: seq<Order>, c: string): set<string> {
    set i | 0 <= i < |rows| && rows[i].city == c :: rows[i].deliveryPersonId
  }

  function Smaller(a: nat, b: nat): nat {
    if a <= b then a else b
  }

  /** The grouped means: keys ascending, one per (city, courier) pair present,
      each the mean delivery time of exactly that courier's rows in that
      city. */
  lemma {:induction false} CourierMeansProperties(rows: seq<Order>)
    ensures StrictlyAscending(AveragedKeys(CourierMeans(rows)))
    ensures forall k :: k in AveragedKeys(CourierMeans(rows)) <==>
              exists i :: 0 <= i < |rows| && CityCourier(rows[i]) == k
    ensures forall i :: 0 <= i < |CourierMeans(rows)| ==>
              GroupMean(rows, CityCourier, TimeTaken, CourierMeans(rows)[i])
  {
    MeanTableOfRows(rows, CityCourier, TimeTaken);
  }

  /** A selection of the sorted means, in sorted order. */
  lemma {:induction false} BlockSorted(sorted: seq<Averaged>, c: string, asc: bool)
    requires SortedBy(sorted, asc)
    ensures SortedBy(Block(sorted, c), asc)
  {
    Series.FilterPairwise(sorted, CityIs(c), (a, b) => Precedes(a, b, asc));
  }

  /** An entry of a city's block is a grouped mean of that city. */
  lemma {:induction false} BlockMembers(rows: seq<Order>, asc: bool, c: string, e: Averaged)
    requires e in Block(SortBy(CourierMeans(rows), asc), c)
    ensures e in CourierMeans(rows) && CityOf(e) == c
  {
    var sorted := SortBy(CourierMeans(rows), asc);
    Series.FilterMembers(sorted, CityIs(c), e);
    assert e in multiset(sorted);
  }

  /** Within a city's block the mean times run in the chosen direction,
      non-decreasing when `asc` and non-increasing otherwise; equal means keep
      courier order. */
  lemma {:induction false} BlockOrder(rows: seq<Order>, asc: bool, c: string)
    ensures var b := Block(SortBy(CourierMeans(rows), asc), c);
            forall i, j :: 0 <= i < j < |b| ==>
              && (asc ==> b[i].mean <= b[j].mean)
              && (!asc ==> b[i].mean >= b[j].mean)
              && (b[i].mean == b[j].mean ==> KeyLess(b[i].key, b[j].key))
  {
    var sorted := SortBy(CourierMeans(rows), asc);
    CourierMeansProperties(rows);
    SortSorted(CourierMeans(rows), asc);
    BlockSorted(sorted, c, asc);
    var b := Block(sorted, c);
    forall i | 0 <= i < |b| ensures CityOf(b[i]) == c {
      BlockMembers(rows, asc, c, b[i]);
    }
    OneCitySorted(b, c, asc);
  }

  /** The kept couriers are the extreme ones: an entry of a city's block is
      at least as fast (`asc`) or as slow (`!asc`) as every courier of that
      city left out of it, and wins a tie by its key. */
  lemma {:induction false} BlockIsExtreme(rows: seq<Order>, asc: bool, c: string, b: Averaged, e: Averaged)
    requires b in Block(SortBy(CourierMeans(rows), asc), c)
    requires e in CourierMeans(rows) && CityOf(e) == c
    requires e !in Block(SortBy(CourierMeans(rows), asc), c)
    ensures asc ==> b.mean <= e.mean
    ensures !asc ==> b.mean >= e.mean
    ensures b.mean == e.mean ==> KeyLess(b.key, e.key)
  {
    var sorted := SortBy(CourierMeans(rows), asc);
    CourierMeansProperties(rows);
    SortSorted(CourierMeans(rows), asc);
    assert e in multiset(CourierMeans(rows));
    assert e in multiset(sorted);
    LeftOutFollows(sorted, c, asc, b, e);
    BlockMembers(rows, asc, c, b);
    Text.LessIrreflexive(c);
  }

  /** In a sorted table, an entry of a city's block comes before every entry
      of that city the block leaves out. */
  lemma {:induction false} LeftOutFollows(sorted: seq<Averaged>, c: string, asc: bool, b: Averaged, e: Averaged)
    requires SortedBy(sorted, asc)
    requires b in Block(sorted, c)
    requires e in sorted && CityOf(e) == c && e !in Block(sorted, c)
    ensures Precedes(b, e, asc)
  {
    var f := Series.Filter(sorted, CityIs(c));
    var blk := Block(sorted, c);
    Series.FilterPairwise(sorted, CityIs(c), (x: Averaged, y: Averaged) => Precedes(x, y, asc));
    Series.FilterMembers(sorted, CityIs(c), e);
    var ie :| 0 <= ie < |f| && f[ie] == e;
    var ib :| 0 <= ib < |blk| && blk[ib] == b;
    assert f[ib] == b;
    assert ib < ie;
  }

  /** Entries of one city in sort order run by mean time, ties by key. */
  lemma {:induction false} OneCitySorted(b: seq<Averaged>, c: string, asc: bool)
    requires SortedBy(b, asc)
    requires forall i :: 0 <= i < |b| ==> CityOf(b[i]) == c
    ensures forall i, j :: 0 <= i < j < |b| ==>
              && (asc ==> b[i].mean <= b[j].mean)
              && (!asc ==> b[i].mean >= b[j].mean)
              && (b[i].mean == b[j].mean ==> KeyLess(b[i].key, b[j].key))
  {
    Text.LessIrreflexive(c);
  }

  /** A city's block has ten entries, or one per courier of that city when
      there are fewer. */
  lemma {:induction false} BlockLength(rows: seq<Order>, asc: bool, c: string)
    ensures |Block(SortBy(CourierMeans(rows), asc), c)| == Smaller(BlockSize, |Couriers(rows, c)|)
  {
    var means := CourierMeans(rows);
    Series.FilterPermutation(SortBy(means, asc), means, CityIs(c));
    CityEntries(rows, c);
  }

  /** The grouped means of a city are one per courier of that city. */
  lemma {:induction false} CityEntries(rows: seq<Order>, c: string)
    ensures |Series.Filter(CourierMeans(rows), CityIs(c))| == |Couriers(rows, c)|
  {
    var means := CourierMeans(rows);
    var f := Series.Filter(means, CityIs(c));
    var ks := AveragedKeys(f);
    MeanTableKeys(rows, CityCourier, TimeTaken);
    Series.FilterPairwise(means, CityIs(c), (a: Averaged, b: Averaged) => KeyLess(a.key, b.key));
    assert StrictlyAscending(ks);
    AscendingIsDistinct(ks);
    DistinctCount(ks);
    forall k ensures k in ks <==> k in PairKeys(Couriers(rows, c), c) {
      CityEntryKey(rows, c, k);
    }
    assert (set k | k in ks) == PairKeys(Couriers(rows, c), c);
    PairKeysSize(Couriers(rows, c), c);
  }

  function PairKeys(ids: set<string>, c: string): set<Key> {
    set id | id in ids :: [Word(c), Word(id)]
  }

  /** A key of the city's grouped means is the pair of the city and one of its
      couriers, and every such pair is a key. */
  lemma {:induction false} CityEntryKey(rows: seq<Order>, c: string, k: Key)
    ensures k in AveragedKeys(Series.Filter(CourierMeans(rows), CityIs(c))) <==> k in PairKeys(Couriers(rows, c), c)
  {
    if k in AveragedKeys(Series.Filter(CourierMeans(rows), CityIs(c))) {
      CityKeyIsPair(rows, c, k);
    }
    if k in PairKeys(Couriers(rows, c), c) {
      PairIsCityKey(rows, c, k);
    }
  }

  lemma {:induction false} CityKeyIsPair(rows: seq<Order>, c: string, k: Key)
    requires k in AveragedKeys(Series.Filter(CourierMeans(rows), CityIs(c)))
    ensures k in PairKeys(Couriers(rows, c), c)
  {
    var means := CourierMeans(rows);
    var f := Series.Filter(means, CityIs(c));
    var m :| 0 <= m < |f| && AveragedKeys(f)[m] == k;
    Series.FilterMembers(means, CityIs(c), f[m]);
    MeanOfCity(rows, c, k, f[m]);
  }

  lemma {:induction false} MeanOfCity(rows: seq<Order>, c: string, k: Key, e: Averaged)
    requires e in CourierMeans(rows) && e.key == k && CityOf(e) == c
    ensures k in PairKeys(Couriers(rows, c), c)
  {
    var i := RowOfMean(rows, c, k, e);
    assert rows[i].deliveryPersonId in Couriers(rows, c);
  }

  lemma {:induction false} RowOfMean(rows: seq<Order>, c: string, k: Key, e: Averaged) returns (i: nat)
    requires e in CourierMeans(rows) && e.key == k && CityOf(e) == c
    ensures i < |rows| && rows[i].city == c && k == [Word(c), Word(rows[i].deliveryPersonId)]
  {
    KeyOfEntry(CourierMeans(rows), e);
    CourierMeansProperties(rows);
    var j :| 0 <= j < |rows| && CityCourier(rows[j]) == k;
    i := j;
  }

  lemma {:induction false} KeyOfEntry(t: seq<Averaged>, e: Averaged)
    requires e in t
    ensures e.key in AveragedKeys(t)
  {
    var n :| 0 <= n < |t| && t[n] == e;
    assert AveragedKeys(t)[n] == e.key;
  }

  lemma {:induction false} PairIsCityKey(rows: seq<Order>, c: string, k: Key)
    requires k in PairKeys(Couriers(rows, c), c)
    ensures k in AveragedKeys(Series.Filter(CourierMeans(rows), CityIs(c)))
  {
    var id :| id in Couriers(rows, c) && k == [Word(c), Word(id)];
    var i :| 0 <= i < |rows| && rows[i].city == c && rows[i].deliveryPersonId == id;
    assert CityCourier(rows[i]) == k;
    CourierMeansProperties(rows);
    PairIsKept(CourierMeans(rows), c, k);
  }

  lemma {:induction false} PairIsKept(means: seq<Averaged>, c: string, k: Key)
    requires k in AveragedKeys(means) && |k| > 0 && k[0] == Word(c)
    ensures k in AveragedKeys(Series.Filter(means, CityIs(c)))
  {
    var f := Series.Filter(means, CityIs(c));
    var n :| 0 <= n < |means| && AveragedKeys(means)[n] == k;
    Series.FilterMembers(means, CityIs(c), means[n]);
    var m :| 0 <= m < |f| && f[m] == means[n];
    assert AveragedKeys(f)[m] == k;
  }

  lemma {:induction false} PairKeysSize(ids: set<string>, c: string)
    ensures |PairKeys(ids, c)| == |ids|
    decreases |ids|
  {
    if ids != {} {
      var x :| x in ids;
      var rest := ids - {x};
      PairKeysSize(rest, c);
      assert PairKeys(ids, c) == PairKeys(rest, c) + {[Word(c), Word(x)]};
      forall y | y in rest ensures [Word(c), Word(y)] != [Word(c), Word(x)] {
        assert [Word(c), Word(y)][1] != [Word(c), Word(x)][1];
      }
    }
  }

  /** Entries with the same key in the grouped means are the same entry. */
  lemma {:induction false} SameKeySameEntry(means: seq<Averaged>, a: Averaged, b: Averaged)
    requires StrictlyAscending(AveragedKeys(means)) && a in means && b in means && a.key == b.key
    ensures a == b
  {
    var i :| 0 <= i < |means| && means[i] == a;
    var j :| 0 <= j < |means| && means[j] == b;
    assert AveragedKeys(means)[i] == AveragedKeys(means)[j];
    AscendingIsDistinct(AveragedKeys(means));
  }

  /** Two entries of a city's block are different couriers. */
  lemma {:induction false} BlockKeysDistinct(rows: seq<Order>, asc: bool, c: string)
    ensures Distinct(AveragedKeys(Block(SortBy(CourierMeans(rows), asc), c)))
  {
    var means := CourierMeans(rows);
    var sorted := SortBy(means, asc);
    CourierMeansProperties(rows);
    SortSorted(means, asc);
    BlockSorted(sorted, c, asc);
    var b := Block(sorted, c);
    forall i, j | 0 <= i < j < |b| ensures b[i].key != b[j].key {
      assert b[i] in b && b[j] in b;
      BlockMembers(rows, asc, c, b[i]);
      BlockMembers(rows, asc, c, b[j]);
      if b[i].key == b[j].key {
        SameKeySameEntry(means, b[i], b[j]);
        PrecedesIrreflexive(b[i], asc);
        assert false;
      }
    }
  }

  /** What `top_delivers` returns: at most 30 entries, the three cities'
      blocks in the order Metropolitian, Urban, Semi-Urban; no other city;
      no courier twice; each entry a courier's mean time in that city. */
  lemma {:induction false} TopDeliversProperties(rows: seq<Order>, asc: bool)
    ensures |TopDelivers(rows, asc)| <= 3 * BlockSize
    ensures forall i :: 0 <= i < |TopDelivers(rows, asc)| ==>
              && KnownCity(CityOf(TopDelivers(rows, asc)[i]))
              && TopDelivers(rows, asc)[i] in CourierMeans(rows)
    ensures forall i, j :: 0 <= i < j < |TopDelivers(rows, asc)| ==>
              && CityRank(CityOf(TopDelivers(rows, asc)[i])) <= CityRank(CityOf(TopDelivers(rows, asc)[j]))
              && TopDelivers(rows, asc)[i].key != TopDelivers(rows, asc)[j].key
  {
    var sorted := SortBy(CourierMeans(rows), asc);
    var b1, b2, b3 := Block(sorted, "Metropolitian"), Block(sorted, "Urban"), Block(sorted, "Semi-Urban");
    assert TopDelivers(rows, asc) == b1 + b2 + b3;
    BlocksInOrder(rows, asc, b1, b2, b3);
    BlocksDistinct(rows, asc, b1, b2, b3);
    RankedConcat(b1 + b2 + b3, |b1|, |b2|);
  }

  /** Entries ranked 0 for the first block, 1 for the second and 2 for the
      rest appear in rank order. */
  lemma {:induction false} RankedConcat(t: seq<Averaged>, n1: nat, n2: nat)
    requires forall i :: 0 <= i < |t| ==>
               CityRank(CityOf(t[i])) == if i < n1 then 0 else if i < n1 + n2 then 1 else 2
    ensures forall i, j :: 0 <= i < j < |t| ==> CityRank(CityOf(t[i])) <= CityRank(CityOf(t[j]))
  {
  }

  /** Every entry of a city's block is one of the grouped means of that city. */
  lemma {:induction false} BlockOfCity(rows: seq<Order>, asc: bool, c: string, b: seq<Averaged>)
    requires b == Block(SortBy(CourierMeans(rows), asc), c)
    ensures forall e :: e in b ==> e in CourierMeans(rows) && CityOf(e) == c
  {
    forall e | e in b ensures e in CourierMeans(rows) && CityOf(e) == c {
      BlockMembers(rows, asc, c, e);
    }
  }

  /** Each entry comes from its city's block, the blocks in city order. */
  lemma {:induction false} BlocksInOrder(rows: seq<Order>, asc: bool, b1: seq<Averaged>, b2: seq<Averaged>, b3: seq<Averaged>)
    requires b1 == Block(SortBy(CourierMeans(rows), asc), "Metropolitian")
    requires b2 == Block(SortBy(CourierMeans(rows), asc), "Urban")
    requires b3 == Block(SortBy(CourierMeans(rows), asc), "Semi-Urban")
    ensures forall i :: 0 <= i < |b1 + b2 + b3| ==>
              && KnownCity(CityOf((b1 + b2 + b3)[i])) && (b1 + b2 + b3)[i] in CourierMeans(rows)
              && CityRank(CityOf((b1 + b2 + b3)[i])) == if i < |b1| then 0 else if i < |b1| + |b2| then 1 else 2
  {
    BlockOfCity(rows, asc, "Metropolitian", b1);
    BlockOfCity(rows, asc, "Urban", b2);
    BlockOfCity(rows, asc, "Semi-Urban", b3);
    ConcatInOrder(CourierMeans(rows), b1, b2, b3);
  }

  lemma {:induction false} ConcatInOrder(means: seq<Averaged>, b1: seq<Averaged>, b2: seq<Averaged>, b3: seq<Averaged>)
    requires forall e :: e in b1 ==> e in means && CityOf(e) == "Metropolitian"
    requires forall e :: e in b2 ==> e in means && CityOf(e) == "Urban"
    requires forall e :: e in b3 ==> e in means && CityOf(e) == "Semi-Urban"
    ensures forall i :: 0 <= i < |b1 + b2 + b3| ==>
              && KnownCity(CityOf((b1 + b2 + b3)[i])) && (b1 + b2 + b3)[i] in means
              && CityRank(CityOf((b1 + b2 + b3)[i])) == if i < |b1| then 0 else if i < |b1| + |b2| then 1 else 2
  {
    var out := b1 + b2 + b3;
    forall i | 0 <= i < |out|
      ensures KnownCity(CityOf(out[i])) && out[i] in means
      ensures CityRank(CityOf(out[i])) == if i < |b1| then 0 else if i < |b1| + |b2| then 1 else 2
    {
      if i < |b1| {
        assert out[i] == b1[i];
        assert b1[i] in b1;
      } else if i < |b1| + |b2| {
        assert out[i] == b2[i - |b1|];
        assert b2[i - |b1|] in b2;
      } else {
        assert out[i] == b3[i - |b1| - |b2|];
        assert b3[i - |b1| - |b2|] in b3;
      }
    }
  }

  /** No courier of a city appears twice. */
  lemma {:induction false} BlocksDistinct(rows: seq<Order>, asc: bool, b1: seq<Averaged>, b2: seq<Averaged>, b3: seq<Averaged>)
    requires b1 == Block(SortBy(CourierMeans(rows), asc), "Metropolitian")
    requires b2 == Block(SortBy(CourierMeans(rows), asc), "Urban")
    requires b3 == Block(SortBy(CourierMeans(rows), asc), "Semi-Urban")
    ensures forall i, j :: 0 <= i < j < |b1 + b2 + b3| ==> (b1 + b2 + b3)[i].key != (b1 + b2 + b3)[j].key
  {
    BlocksInOrder(rows, asc, b1, b2, b3);
    BlockKeysDistinct(rows, asc, "Metropolitian");
    BlockKeysDistinct(rows, asc, "Urban");
    BlockKeysDistinct(rows, asc, "Semi-Urban");
    ConcatDistinct(b1, b2, b3);
  }

  lemma {:induction false} ConcatDistinct(b1: seq<Averaged>, b2: seq<Averaged>, b3: seq<Averaged>)
    requires Distinct(AveragedKeys(b1)) && Distinct(AveragedKeys(b2)) && Distinct(AveragedKeys(b3))
    requires forall i :: 0 <= i < |b1 + b2 + b3| ==>
               CityRank(CityOf((b1 + b2 + b3)[i])) == if i < |b1| then 0 else if i < |b1| + |b2| then 1 else 2
    ensures forall i, j :: 0 <= i < j < |b1 + b2 + b3| ==> (b1 + b2 + b3)[i].key != (b1 + b2 + b3)[j].key
  {
    var out := b1 + b2 + b3;
    forall i, j | 0 <= i < j < |out| ensures out[i].key != out[j].key {
      if j < |b1| {
        assert AveragedKeys(b1)[i] == out[i].key && AveragedKeys(b1)[j] == out[j].key;
      } else if i >= |b1| && j < |b1| + |b2| {
        assert AveragedKeys(b2)[i - |b1|] == out[i].key && AveragedKeys(b2)[j - |b1|] == out[j].key;
      } else if i >= |b1| + |b2| {
        assert AveragedKeys(b3)[i - |b1| - |b2|] == out[i].key && AveragedKeys(b3)[j - |b1| - |b2|] == out[j].key;
      } else {
        assert CityRank(CityOf(out[i])) != CityRank(CityOf(out[j]));
      }
    }
  }

  /** A city with no rows contributes no entry. */
  lemma {:induction false} AbsentCityLeftOut(rows: seq<Order>, asc: bool, c: string)
    requires forall i :: 0 <= i < |rows| ==> rows[i].city != c
    ensures Block(SortBy(CourierMeans(rows), asc), c) == []
  {
    BlockLength(rows, asc, c);
    assert Couriers(rows, c) == {};
  }

  // ---------------------------------------------------------------------------
  // Overall metrics
  // ---------------------------------------------------------------------------

  function Age(o: Order): int {
    o.age
  }

  function VehicleCondition(o: Order): int {
    o.vehicleCondition
  }

  /** `df1.loc[:, column].max()`; pandas gives NaN on an empty table, here
      `None`. */
  function Largest(rows: seq<Order>, column: Order -> int): (m: Option<int>)
    ensures m.None? <==> |rows| == 0
    ensures m.Some? ==> (exists i :: 0 <= i < |rows| && column(rows[i]) == m.value)
                         && forall i :: 0 <= i < |rows| ==> column(rows[i]) <= m.value
  {
    if |rows| == 0 then None
    else
      var vs := Column(rows, column);
      var m := Grouping.Max(vs);
      assert exists i :: 0 <= i < |vs| && vs[i] == m;
      Some(m)
  }

  /** `df1.loc[:, column].min()`. */
  function Smallest(rows: seq<Order>, column: Order -> int): (m: Option<int>)
    ensures m.None? <==> |rows| == 0
    ensures m.Some? ==> (exists i :: 0 <= i < |rows| && column(rows[i]) == m.value)
                         && forall i :: 0 <= i < |rows| ==> m.value <= column(rows[i])
  {
    if |rows| == 0 then None
    else
      var vs := Column(rows, column);
      var m := Grouping.Min(vs);
      assert exists i :: 0 <= i < |vs| && vs[i] == m;
      Some(m)
  }

  /** The four figures at the top of the page. */
  datatype Metrics = Metrics(oldest: Option<int>, youngest: Option<int>, bestCondition: Option<int>, worstCondition: Option<int>)

  function OverallMetrics(rows: seq<Order>): Metrics {
    Metrics(Largest(rows, Age), Smallest(rows, Age), Largest(rows, VehicleCondition), Smallest(rows, VehicleCondition))
  }

  /** On a table with rows, the oldest age is at least every age and the
      youngest at most every age, both belonging to some row; the same for
      the vehicle condition. An empty table has no figures. */
  lemma {:induction false} OverallMetricsBounds(rows: seq<Order>)
    ensures var m := OverallMetrics(rows);
            |rows| == 0 <==> m.oldest.None? && m.youngest.None? && m.bestCondition.None? && m.worstCondition.None?
    ensures var m := OverallMetrics(rows);
            |rows| > 0 ==>
              && m.youngest.value <= m.oldest.value
              && m.worstCondition.value <= m.bestCondition.value
              && (exists i :: 0 <= i < |rows| && rows[i].age == m.oldest.value)
              && (exists i :: 0 <= i < |rows| && rows[i].age == m.youngest.value)
              && (exists i :: 0 <= i < |rows| && rows[i].vehicleCondition == m.bestCondition.value)
              && (exists i :: 0 <= i < |rows| && rows[i].vehicleCondition == m.worstCondition.value)
              && forall i :: 0 <= i < |rows| ==>
                   && m.youngest.value <= rows[i].age <= m.oldest.value
                   && m.worstCondition.value <= rows[i].vehicleCondition <= m.bestCondition.value
  {
    if |rows| > 0 {
      assert Age(rows[0]) == rows[0].age;
      assert forall i :: 0 <= i < |rows| ==> Age(rows[i]) == rows[i].age && VehicleCondition(rows[i]) == rows[i].vehicleCondition;
    }
  }

  // ---------------------------------------------------------------------------
  // The rating tables, by their keys
  // ---------------------------------------------------------------------------

  function CourierKey(o: Order): Key {
    [Word(o.deliveryPersonId)]
  }

  function TrafficKey(o: Order): Key {
    [Word(o.traffic)]
  }

  function WeatherKey(o: Order): Key {
    [Word(o.weather)]
  }

  /** The rows of the three rating tables: by courier, by traffic density and
      by weather. The rating means are not modelled. */
  function RatingKeys(rows: seq<Order>): (tables: (seq<Key>, seq<Key>, seq<Key>)) {
    (GroupKeys(KeysBy(rows, CourierKey)), GroupKeys(KeysBy(rows, TrafficKey)), GroupKeys(KeysBy(rows, WeatherKey)))
  }

  /** Each rating table has one row per distinct courier, traffic density or
      weather text, in ascending order. */
  lemma {:induction false} RatingKeysProperties(rows: seq<Order>)
    ensures StrictlyAscending(RatingKeys(rows).0) && StrictlyAscending(RatingKeys(rows).1) && StrictlyAscending(RatingKeys(rows).2)
    ensures forall id :: [Word(id)] in RatingKeys(rows).0 <==> exists i :: 0 <= i < |rows| && rows[i].deliveryPersonId == id
    ensures forall t :: [Word(t)] in RatingKeys(rows).1 <==> exists i :: 0 <= i < |rows| && rows[i].traffic == t
    ensures forall w :: [Word(w)] in RatingKeys(rows).2 <==> exists i :: 0 <= i < |rows| && rows[i].weather == w
    ensures forall k :: k in RatingKeys(rows).0 ==> exists i :: 0 <= i < |rows| && k == CourierKey(rows[i])
  {
    forall id ensures [Word(id)] in RatingKeys(rows).0 <==> exists i :: 0 <= i < |rows| && rows[i].deliveryPersonId == id {
      KeyOfSomeRow(rows, CourierKey, [Word(id)]);
    }
    forall t ensures [Word(t)] in RatingKeys(rows).1 <==> exists i :: 0 <= i < |rows| && rows[i].traffic == t {
      KeyOfSomeRow(rows, TrafficKey, [Word(t)]);
    }
    forall w ensures [Word(w)] in RatingKeys(rows).2 <==> exists i :: 0 <= i < |rows| && rows[i].weather == w {
      KeyOfSomeRow(rows, WeatherKey, [Word(w)]);
    }
    forall k | k in RatingKeys(rows).0 ensures exists i :: 0 <= i < |rows| && k == CourierKey(rows[i]) {
      KeyOfSomeRow(rows, CourierKey, k);
    }
  }
}
