/** `DataFrame.groupby` as the pages use it: the group keys come out distinct
    and in ascending order, each with the rows that carry it. On top of it,
    the two aggregations the pages read: the number of rows of a group
    (`count`) and the mean of an integer column over a group (`mean`). */
module Grouping {
  import Text
  import Calendar
  import Series

  /** One value of a group-by column: text, or a day of the `Order_Date`
      column. */
  datatype Cell = Word(text: string) | Day(date: Calendar.Date)

  /** The values of the group-by columns of one row, in column order. */
  type Key = seq<Cell>

  // ---------------------------------------------------------------------------
  // The order groupby sorts keys in
  // ---------------------------------------------------------------------------

  /** Text by Python's `str` order, days by the calendar. A grouped column
      holds one kind only; placing text first just makes the order total. */
  predicate CellLess(a: Cell, b: Cell) {
    match a
    case Word(x) => (match b case Word(y) => Text.Less(x, y) case Day(_) => true)
    case Day(x) => (match b case Word(_) => false case Day(y) => Calendar.Before(x, y))
  }

  lemma {:induction false} CellLessIrreflexive(a: Cell)
    ensures !CellLess(a, a)
  {
    if a.Word? { Text.LessIrreflexive(a.text); }
  }

  lemma {:induction false} CellLessTransitive(a: Cell, b: Cell, c: Cell)
    requires CellLess(a, b) && CellLess(b, c)
    ensures CellLess(a, c)
  {
    if a.Word? && b.Word? && c.Word? { Text.LessTransitive(a.text, b.text, c.text); }
  }

  lemma {:induction false} CellLessTotal(a: Cell, b: Cell)
    requires a != b
    ensures CellLess(a, b) || CellLess(b, a)
  {
    if a.Word? && b.Word? { Text.LessTotal(a.text, b.text); }
  }

  /** Lexicographic order of keys, as pandas sorts a multi-column group. */
  predicate KeyLess(a: Key, b: Key) {
    if |a| == 0 then |b| > 0
    else if |b| == 0 then false
    else CellLess(a[0], b[0]) || (a[0] == b[0] && KeyLess(a[1..], b[1..]))
  }

  lemma {:induction false} KeyLessIrreflexive(a: Key)
    ensures !KeyLess(a, a)
  {
    if |a| > 0 {
      CellLessIrreflexive(a[0]);
      KeyLessIrreflexive(a[1..]);
    }
  }

  lemma {:induction false} KeyLessTransitive(a: Key, b: Key, c: Key)
    requires KeyLess(a, b) && KeyLess(b, c)
    ensures KeyLess(a, c)
  {
    if |a| > 0 && |b| > 0 && |c| > 0 {
      if CellLess(a[0], b[0]) && CellLess(b[0], c[0]) {
        CellLessTransitive(a[0], b[0], c[0]);
      } else if a[0] == b[0] == c[0] {
        KeyLessTransitive(a[1..], b[1..], c[1..]);
      }
    }
  }

  lemma {:induction false} KeyLessTotal(a: Key, b: Key)
    requires a != b
    ensures KeyLess(a, b) || KeyLess(b, a)
  {
    if |a| > 0 && |b| > 0 {
      if a[0] != b[0] {
        CellLessTotal(a[0], b[0]);
      } else {
        assert a == [a[0]] + a[1..] && b == [b[0]] + b[1..];
        KeyLessTotal(a[1..], b[1..]);
      }
    }
  }

  predicate StrictlyAscending(ks: seq<Key>) {
    forall i, j :: 0 <= i < j < |ks| ==> KeyLess(ks[i], ks[j])
  }

  predicate Distinct<T(==)>(s: seq<T>) {
    forall i, j :: 0 <= i < j < |s| ==> s[i] != s[j]
  }

  lemma {:induction false} AscendingIsDistinct(ks: seq<Key>)
    requires StrictlyAscending(ks)
    ensures Distinct(ks)
  {
    forall i, j | 0 <= i < j < |ks| ensures ks[i] != ks[j] {
      KeyLessIrreflexive(ks[i]);
    }
  }

  // ---------------------------------------------------------------------------
  // The group keys
  // ---------------------------------------------------------------------------

  /** `k` put in its place in an ascending key list, unless it is there. */
  function Insert(ks: seq<Key>, k: Key): (r: seq<Key>)
    requires StrictlyAscending(ks)
    ensures StrictlyAscending(r)
    ensures forall x :: x in r <==> x in ks || x == k
  {
    if |ks| == 0 then [k]
    else if k == ks[0] then ks
    else if KeyLess(k, ks[0]) then
      InsertFirst(ks, k);
      [k] + ks
    else
      KeyLessTotal(k, ks[0]);
      var rest := Insert(ks[1..], k);
      InsertAfterFirst(ks, k, rest);
      [ks[0]] + rest
  }

  lemma {:induction false} InsertFirst(ks: seq<Key>, k: Key)
    requires StrictlyAscending(ks) && |ks| > 0 && KeyLess(k, ks[0])
    ensures StrictlyAscending([k] + ks)
  {
    forall j | 0 < j < |ks| ensures KeyLess(k, ks[j]) {
      KeyLessTransitive(k, ks[0], ks[j]);
    }
  }

  lemma {:induction false} InsertAfterFirst(ks: seq<Key>, k: Key, rest: seq<Key>)
    requires StrictlyAscending(ks) && |ks| > 0 && KeyLess(ks[0], k)
    requires StrictlyAscending(rest) && forall x :: x in rest <==> x in ks[1..] || x == k
    ensures StrictlyAscending([ks[0]] + rest)
  {
    forall j | 0 <= j < |rest| ensures KeyLess(ks[0], rest[j]) {
      assert rest[j] in rest;
    }
  }

  /** The keys `groupby` produces: each key of the rows once, ascending. */
  function GroupKeys(keys: seq<Key>): (g: seq<Key>)
    ensures StrictlyAscending(g)
    ensures forall k :: k in g <==> k in keys
  {
    if |keys| == 0 then []
    else Insert(GroupKeys(keys[..|keys| - 1]), keys[|keys| - 1])
  }

  /** Sorted keys without repetition are determined by the set they hold, so
      grouping is the same whatever the order of the rows. */
  lemma {:induction false} AscendingUnique(a: seq<Key>, b: seq<Key>)
    requires StrictlyAscending(a) && StrictlyAscending(b)
    requires forall k :: k in a <==> k in b
    ensures a == b
  {
    SameElementsSameEmptiness(a, b);
    if |a| > 0 {
      SameHead(a, b);
      AscendingIsDistinct(a);
      AscendingIsDistinct(b);
      forall k ensures k in a[1..] <==> k in b[1..] {
        if k in a[1..] {
          var i :| 1 <= i < |a| && a[i] == k;
          assert k in b;
          var j :| 0 <= j < |b| && b[j] == k;
          assert j != 0;
          assert b[1..][j - 1] == k;
        }
        if k in b[1..] {
          var i :| 1 <= i < |b| && b[i] == k;
          assert k in a;
          var j :| 0 <= j < |a| && a[j] == k;
          assert j != 0;
          assert a[1..][j - 1] == k;
        }
      }
      AscendingUnique(a[1..], b[1..]);
      assert a == [a[0]] + a[1..] && b == [b[0]] + b[1..];
    }
  }

  lemma {:induction false} SameElementsSameEmptiness(a: seq<Key>, b: seq<Key>)
    requires forall k :: k in a <==> k in b
    ensures |a| == 0 <==> |b| == 0
  {
    if |a| > 0 { assert a[0] in a; }
    if |b| > 0 { assert b[0] in b; }
  }

  /** Every other key of an ascending list comes after its first. */
  lemma {:induction false} FirstIsLeast(a: seq<Key>, x: Key)
    requires StrictlyAscending(a) && x in a
    ensures x == a[0] || KeyLess(a[0], x)
  {
  }

  lemma {:induction false} SameHead(a: seq<Key>, b: seq<Key>)
    requires StrictlyAscending(a) && StrictlyAscending(b) && |a| > 0 && |b| > 0
    requires forall k :: k in a <==> k in b
    ensures a[0] == b[0]
  {
    assert a[0] in b && b[0] in a;
    FirstIsLeast(a, b[0]);
    FirstIsLeast(b, a[0]);
    if a[0] != b[0] {
      KeyLessTransitive(a[0], b[0], a[0]);
      KeyLessIrreflexive(a[0]);
      assert false;
    }
  }

  /** The group keys of the same rows in another order are the same. */
  lemma {:induction false} GroupKeysIgnoreRowOrder(keys: seq<Key>, shuffled: seq<Key>)
    requires multiset(keys) == multiset(shuffled)
    ensures GroupKeys(keys) == GroupKeys(shuffled)
  {
    forall k ensures k in GroupKeys(keys) <==> k in GroupKeys(shuffled) {
      assert k in keys <==> k in multiset(keys);
      assert k in shuffled <==> k in multiset(shuffled);
    }
    AscendingUnique(GroupKeys(keys), GroupKeys(shuffled));
  }

  // ---------------------------------------------------------------------------
  // count
  // ---------------------------------------------------------------------------

  /** One row of a grouped count: the key and the number of rows with it. */
  datatype Counted = Counted(key: Key, count: nat)

  /** `.groupby(keys).count()`: one entry per group key, ascending, with the
      number of rows carrying it. */
  function CountTable(keys: seq<Key>): (t: seq<Counted>)
    ensures |t| == |GroupKeys(keys)|
    ensures forall i :: 0 <= i < |t| ==> t[i].key == GroupKeys(keys)[i]
  {
    var g := GroupKeys(keys);
    seq(|g|, i requires 0 <= i < |g| => Counted(g[i], multiset(keys)[g[i]]))
  }

  function TotalCount(t: seq<Counted>): nat {
    if |t| == 0 then 0 else TotalCount(t[..|t| - 1]) + t[|t| - 1].count
  }

  function Keys(t: seq<Counted>): (ks: seq<Key>)
    ensures |ks| == |t| && forall i :: 0 <= i < |t| ==> ks[i] == t[i].key
  {
    seq(|t|, i requires 0 <= i < |t| => t[i].key)
  }

  /** What a grouped count holds: keys distinct and ascending, exactly the
      keys of the rows; every count at least 1 and equal to the number of
      rows with its key; all counts together the number of rows. */
  lemma {:induction false} CountTableProperties(keys: seq<Key>)
    ensures StrictlyAscending(Keys(CountTable(keys)))
    ensures forall k :: k in Keys(CountTable(keys)) <==> k in keys
    ensures forall i :: 0 <= i < |CountTable(keys)| ==>
              1 <= CountTable(keys)[i].count == multiset(keys)[CountTable(keys)[i].key]
    ensures TotalCount(CountTable(keys)) == |keys|
  {
    var t := CountTable(keys);
    var g := GroupKeys(keys);
    assert Keys(t) == g;
    CountsAreCounts(keys);
    CountTotal(keys);
  }

  lemma {:induction false} CountsAreCounts(keys: seq<Key>)
    ensures forall i :: 0 <= i < |CountTable(keys)| ==>
              1 <= CountTable(keys)[i].count == multiset(keys)[CountTable(keys)[i].key]
  {
    var t := CountTable(keys);
    var g := GroupKeys(keys);
    forall i | 0 <= i < |t| ensures 1 <= t[i].count == multiset(keys)[t[i].key] {
      assert g[i] in keys;
      assert t[i] == Counted(g[i], multiset(keys)[g[i]]);
    }
  }

  lemma {:induction false} CountTotal(keys: seq<Key>)
    ensures TotalCount(CountTable(keys)) == |keys|
  {
    var g := GroupKeys(keys);
    AscendingIsDistinct(g);
    CountsAddUp(keys, g);
    CountTableTotal(keys, g, |g|);
    assert CountTable(keys)[..|g|] == CountTable(keys);
    assert g[..|g|] == g;
  }

  /** The counts of distinct keys, one for each key of the rows. */
  function SumCounts(g: seq<Key>, m: multiset<Key>): nat {
    if |g| == 0 then 0 else SumCounts(g[..|g| - 1], m) + m[g[|g| - 1]]
  }

  lemma {:induction false} SumCountsAdd(g: seq<Key>, m: multiset<Key>, x: Key)
    requires Distinct(g)
    ensures SumCounts(g, m + multiset{x}) == SumCounts(g, m) + (if x in g then 1 else 0)
  {
    if |g| > 0 {
      var init := g[..|g| - 1];
      assert Distinct(init);
      SumCountsAdd(init, m, x);
      assert g == init + [g[|g| - 1]];
      if x in init { assert x != g[|g| - 1]; }
    }
  }

  lemma {:induction false} SumCountsEmpty(g: seq<Key>)
    ensures SumCounts(g, multiset{}) == 0
  {
    if |g| > 0 { SumCountsEmpty(g[..|g| - 1]); }
  }

  /** The counts over a list of distinct keys that covers every row add up to
      the number of rows. */
  lemma {:induction false} CountsAddUp(keys: seq<Key>, g: seq<Key>)
    requires Distinct(g) && forall i :: 0 <= i < |keys| ==> keys[i] in g
    ensures SumCounts(g, multiset(keys)) == |keys|
  {
    if |keys| == 0 {
      SumCountsEmpty(g);
    } else {
      var init := keys[..|keys| - 1];
      var x := keys[|keys| - 1];
      assert keys == init + [x];
      CountsAddUp(init, g);
      SumCountsAdd(g, multiset(init), x);
    }
  }

  lemma {:induction false} CountTableTotal(keys: seq<Key>, g: seq<Key>, n: nat)
    requires g == GroupKeys(keys) && n <= |g|
    ensures TotalCount(CountTable(keys)[..n]) == SumCounts(g[..n], multiset(keys))
  {
    if n > 0 {
      CountTableTotal(keys, g, n - 1);
      assert CountTable(keys)[..n][..n - 1] == CountTable(keys)[..n - 1];
      assert g[..n][..n - 1] == g[..n - 1];
    } else {
      assert CountTable(keys)[..0] == [];
    }
  }

  /** The key column(s) of a table: `f` reads the grouped columns of a row. */
  function KeysBy<T>(rows: seq<T>, f: T -> Key): (ks: seq<Key>)
    ensures |ks| == |rows| && forall i :: 0 <= i < |rows| ==> ks[i] == f(rows[i])
  {
    seq(|rows|, i requires 0 <= i < |rows| => f(rows[i]))
  }

  function HasKey<T>(f: T -> Key, k: Key): T -> bool {
    x => f(x) == k
  }

  /** How often a key occurs is how many rows carry it. */
  lemma {:induction false} OccurrencesAreRows<T>(rows: seq<T>, f: T -> Key, k: Key)
    ensures multiset(KeysBy(rows, f))[k] == |Series.Filter(rows, HasKey(f, k))|
  {
    if |rows| > 0 {
      var init := rows[..|rows| - 1];
      OccurrencesAreRows(init, f, k);
      assert KeysBy(rows, f) == KeysBy(init, f) + [f(rows[|rows| - 1])];
    }
  }

  /** A grouped count of a table by the columns `f` reads: keys distinct and
      ascending, one for each combination present; each count the number of
      rows with that combination, at least 1; the counts adding up to the
      number of rows. */
  lemma {:induction false} CountTableOfRows<T>(rows: seq<T>, f: T -> Key)
    ensures StrictlyAscending(Keys(CountTable(KeysBy(rows, f))))
    ensures forall k :: k in Keys(CountTable(KeysBy(rows, f))) <==> exists i :: 0 <= i < |rows| && f(rows[i]) == k
    ensures forall i :: 0 <= i < |CountTable(KeysBy(rows, f))| ==>
              var e := CountTable(KeysBy(rows, f))[i];
              1 <= e.count == |Series.Filter(rows, HasKey(f, e.key))|
    ensures TotalCount(CountTable(KeysBy(rows, f))) == |rows|
  {
    var keys := KeysBy(rows, f);
    var t := CountTable(keys);
    CountTableProperties(keys);
    forall k ensures k in Keys(t) <==> exists i :: 0 <= i < |rows| && f(rows[i]) == k {
      if k in keys {
        var i :| 0 <= i < |keys| && keys[i] == k;
        assert f(rows[i]) == k;
      }
      if exists i :: 0 <= i < |rows| && f(rows[i]) == k {
        var i :| 0 <= i < |rows| && f(rows[i]) == k;
        assert keys[i] == k;
      }
    }
    forall i | 0 <= i < |t| ensures 1 <= t[i].count == |Series.Filter(rows, HasKey(f, t[i].key))| {
      OccurrencesAreRows(rows, f, t[i].key);
    }
  }

  // ---------------------------------------------------------------------------
  // The rows of one group, and mean
  // ---------------------------------------------------------------------------

  /** One row reduced to its group key and the column being aggregated. */
  datatype Keyed<V> = Keyed(key: Key, value: V)

  function KeysOf<V>(rows: seq<Keyed<V>>): (ks: seq<Key>)
    ensures |ks| == |rows| && forall i :: 0 <= i < |rows| ==> ks[i] == rows[i].key
  {
    seq(|rows|, i requires 0 <= i < |rows| => rows[i].key)
  }

  /** The values of the rows whose key is `k`, in row order: one group. */
  function ValuesOf<V>(rows: seq<Keyed<V>>, k: Key): (vs: seq<V>)
    ensures |vs| == multiset(KeysOf(rows))[k]
    ensures forall i :: 0 <= i < |vs| ==> Keyed(k, vs[i]) in rows
    ensures forall i :: 0 <= i < |rows| && rows[i].key == k ==> rows[i].value in vs
  {
    if |rows| == 0 then []
    else
      var init := rows[..|rows| - 1];
      var last := rows[|rows| - 1];
      assert rows == init + [last];
      assert KeysOf(rows) == KeysOf(init) + [last.key];
      ValuesOf(init, k) + (if last.key == k then [last.value] else [])
  }

  function Sum(vs: seq<int>): int {
    if |vs| == 0 then 0 else Sum(vs[..|vs| - 1]) + vs[|vs| - 1]
  }

  function Mean(vs: seq<int>): real
    requires |vs| > 0
  {
    Sum(vs) as real / |vs| as real
  }

  function Min(vs: seq<int>): (m: int)
    requires |vs| > 0
    ensures m in vs && forall i :: 0 <= i < |vs| ==> m <= vs[i]
  {
    if |vs| == 1 then vs[0]
    else
      var rest := Min(vs[..|vs| - 1]);
      assert forall i :: 0 <= i < |vs| - 1 ==> vs[..|vs| - 1][i] == vs[i];
      if vs[|vs| - 1] < rest then vs[|vs| - 1] else rest
  }

  function Max(vs: seq<int>): (m: int)
    requires |vs| > 0
    ensures m in vs && forall i :: 0 <= i < |vs| ==> vs[i] <= m
  {
    if |vs| == 1 then vs[0]
    else
      var rest := Max(vs[..|vs| - 1]);
      assert forall i :: 0 <= i < |vs| - 1 ==> vs[..|vs| - 1][i] == vs[i];
      if vs[|vs| - 1] > rest then vs[|vs| - 1] else rest
  }

  lemma {:induction false} SumBounds(vs: seq<int>, lo: int, hi: int)
    requires forall i :: 0 <= i < |vs| ==> lo <= vs[i] <= hi
    ensures |vs| * lo <= Sum(vs) <= |vs| * hi
  {
    if |vs| > 0 {
      SumBounds(vs[..|vs| - 1], lo, hi);
    }
  }

  /** A mean lies between the smallest and the largest value averaged. */
  lemma {:induction false} MeanBetween(vs: seq<int>)
    requires |vs| > 0
    ensures Min(vs) as real <= Mean(vs) <= Max(vs) as real
  {
    MeanBounded(vs, Min(vs), Max(vs));
  }

  lemma {:induction false} MeanBounded(vs: seq<int>, lo: int, hi: int)
    requires |vs| > 0 && forall i :: 0 <= i < |vs| ==> lo <= vs[i] <= hi
    ensures lo as real <= Mean(vs) <= hi as real
  {
    SumBounds(vs, lo, hi);
    IntToRealBounds(|vs|, lo, hi, Sum(vs));
    DivideBounds(Sum(vs) as real, |vs| as real, lo as real, hi as real);
  }

  lemma {:induction false} IntToRealBounds(n: int, lo: int, hi: int, total: int)
    requires n * lo <= total <= n * hi
    ensures (n as real) * (lo as real) <= total as real <= (n as real) * (hi as real)
  {
    assert (n * lo) as real == (n as real) * (lo as real);
    assert (n * hi) as real == (n as real) * (hi as real);
  }

  lemma {:induction false} DivideBounds(s: real, n: real, lo: real, hi: real)
    requires n > 0.0 && n * lo <= s <= n * hi
    ensures lo <= s / n <= hi
  {
    assert s / n * n == s;
  }

  /** One row of a grouped mean. */
  datatype Averaged = Averaged(key: Key, mean: real)

  /** `.groupby(keys).mean()` of an integer column: one entry per group key,
      ascending, with the mean of its rows. */
  function MeanTable(rows: seq<Keyed<int>>): (t: seq<Averaged>)
    ensures |t| == |GroupKeys(KeysOf(rows))|
    ensures forall i :: 0 <= i < |t| ==> t[i].key == GroupKeys(KeysOf(rows))[i]
  {
    var g := GroupKeys(KeysOf(rows));
    seq(|g|, i requires 0 <= i < |g| =>
      assert g[i] in KeysOf(rows);
      Averaged(g[i], Mean(ValuesOf(rows, g[i]))))
  }

  lemma {:induction false} GroupIsNonEmpty<V>(rows: seq<Keyed<V>>, k: Key)
    requires k in GroupKeys(KeysOf(rows))
    ensures |ValuesOf(rows, k)| > 0
  {
    assert k in multiset(KeysOf(rows));
  }

  /** What a grouped mean holds: one entry per distinct key, ascending; each
      mean is the sum of its group divided by the group's size, and lies
      between the group's smallest and largest value. */
  lemma {:induction false} MeanTableProperties(rows: seq<Keyed<int>>)
    ensures StrictlyAscending(AveragedKeys(MeanTable(rows)))
    ensures forall k :: k in AveragedKeys(MeanTable(rows)) <==> k in KeysOf(rows)
    ensures forall i :: 0 <= i < |MeanTable(rows)| ==>
              var vs := ValuesOf(rows, MeanTable(rows)[i].key);
              && |vs| > 0
              && MeanTable(rows)[i].mean == Sum(vs) as real / |vs| as real
              && Min(vs) as real <= MeanTable(rows)[i].mean <= Max(vs) as real
  {
    var t := MeanTable(rows);
    assert AveragedKeys(t) == GroupKeys(KeysOf(rows));
    forall i | 0 <= i < |t|
      ensures var vs := ValuesOf(rows, t[i].key);
              && |vs| > 0 && t[i].mean == Sum(vs) as real / |vs| as real
              && Min(vs) as real <= t[i].mean <= Max(vs) as real
    {
      GroupIsNonEmpty(rows, t[i].key);
      MeanBetween(ValuesOf(rows, t[i].key));
    }
  }

  function AveragedKeys(t: seq<Averaged>): (ks: seq<Key>)
    ensures |ks| == |t| && forall i :: 0 <= i < |t| ==> ks[i] == t[i].key
  {
    seq(|t|, i requires 0 <= i < |t| => t[i].key)
  }

  // ---------------------------------------------------------------------------
  // Grouping a table of records
  // ---------------------------------------------------------------------------

  /** `df.loc[:, [keys..., column]]`: each row reduced to the group key `key`
      reads and the column `value` reads. */
  function Tag<T, V>(rows: seq<T>, key: T -> Key, value: T -> V): (tagged: seq<Keyed<V>>)
    ensures |tagged| == |rows|
    ensures forall i :: 0 <= i < |rows| ==> tagged[i] == Keyed(key(rows[i]), value(rows[i]))
  {
    seq(|rows|, i requires 0 <= i < |rows| => Keyed(key(rows[i]), value(rows[i])))
  }

  /** One column of a table, in row order. */
  function Column<T, V>(rows: seq<T>, value: T -> V): (vs: seq<V>)
    ensures |vs| == |rows| && forall i :: 0 <= i < |rows| ==> vs[i] == value(rows[i])
  {
    seq(|rows|, i requires 0 <= i < |rows| => value(rows[i]))
  }

  lemma {:induction false} KeysOfTag<T, V>(rows: seq<T>, key: T -> Key, value: T -> V)
    ensures KeysOf(Tag(rows, key, value)) == KeysBy(rows, key)
  {
  }

  /** The group of key `k` is the column of exactly the rows whose key is
      `k`, in row order. */
  lemma {:induction false} GroupOfRows<T, V>(rows: seq<T>, key: T -> Key, value: T -> V, k: Key)
    ensures ValuesOf(Tag(rows, key, value), k) == Column(Series.Filter(rows, HasKey(key, k)), value)
  {
    if |rows| > 0 {
      var n := |rows| - 1;
      var init := rows[..n];
      var keep := HasKey(key, k);
      var tagged := Tag(rows, key, value);
      var last := if keep(rows[n]) then [rows[n]] else [];
      GroupOfRows(init, key, value, k);
      assert tagged[..n] == Tag(init, key, value);
      ValuesOfLast(tagged, k);
      assert Series.Filter(rows, keep) == Series.Filter(init, keep) + last;
      ColumnAppend(Series.Filter(init, keep), last, value);
      assert Column(last, value) == if tagged[n].key == k then [tagged[n].value] else [];
    }
  }

  lemma {:induction false} ValuesOfLast<V>(rows: seq<Keyed<V>>, k: Key)
    requires |rows| > 0
    ensures ValuesOf(rows, k) == ValuesOf(rows[..|rows| - 1], k)
              + (if rows[|rows| - 1].key == k then [rows[|rows| - 1].value] else [])
  {
  }

  /** A column of a selection grows by the last row's value exactly when the
      last row is selected. */
  lemma {:induction false} ColumnOfSelectionLast<T, V>(rows: seq<T>, keep: T -> bool, value: T -> V)
    requires |rows| > 0
    ensures var n := |rows| - 1;
            Column(Series.Filter(rows, keep), value)
              == Column(Series.Filter(rows[..n], keep), value) + (if keep(rows[n]) then [value(rows[n])] else [])
  {
    var n := |rows| - 1;
    var last := if keep(rows[n]) then [rows[n]] else [];
    assert Series.Filter(rows, keep) == Series.Filter(rows[..n], keep) + last;
    ColumnAppend(Series.Filter(rows[..n], keep), last, value);
    assert Column(last, value) == if keep(rows[n]) then [value(rows[n])] else [];
  }

  lemma {:induction false} ColumnAppend<T, V>(a: seq<T>, b: seq<T>, value: T -> V)
    ensures Column(a + b, value) == Column(a, value) + Column(b, value)
  {
  }

  /** A grouped mean of a table: one entry per key combination present,
      ascending; each mean is the sum of the column over exactly the rows of
      that combination divided by their number, and lies between their
      smallest and largest value. */
  lemma {:induction false} MeanTableOfRows<T>(rows: seq<T>, key: T -> Key, value: T -> int)
    ensures StrictlyAscending(AveragedKeys(MeanTable(Tag(rows, key, value))))
    ensures forall k :: k in AveragedKeys(MeanTable(Tag(rows, key, value))) <==>
              exists i :: 0 <= i < |rows| && key(rows[i]) == k
    ensures forall i :: 0 <= i < |MeanTable(Tag(rows, key, value))| ==>
              GroupMean(rows, key, value, MeanTable(Tag(rows, key, value))[i])
  {
    var t := MeanTable(Tag(rows, key, value));
    MeanTableKeys(rows, key, value);
    forall i | 0 <= i < |t| ensures GroupMean(rows, key, value, t[i]) {
      MeanOfGroup(rows, key, value, i);
    }
  }

  /** The keys of a grouped mean: ascending, and exactly the keys of the rows. */
  lemma {:induction false} MeanTableKeys<T>(rows: seq<T>, key: T -> Key, value: T -> int)
    ensures StrictlyAscending(AveragedKeys(MeanTable(Tag(rows, key, value))))
    ensures forall k :: k in AveragedKeys(MeanTable(Tag(rows, key, value))) <==>
              exists i :: 0 <= i < |rows| && key(rows[i]) == k
  {
    var tagged := Tag(rows, key, value);
    var t := MeanTable(tagged);
    MeanTableProperties(tagged);
    KeysOfTag(rows, key, value);
    forall k ensures k in AveragedKeys(t) <==> exists i :: 0 <= i < |rows| && key(rows[i]) == k {
      KeyOfSomeRow(rows, key, k);
    }
  }

  /** The distinct keys of the rows. */
  function KeySet<T>(rows: seq<T>, key: T -> Key): set<Key> {
    set i | 0 <= i < |rows| :: key(rows[i])
  }

  /** A grouped mean has one entry per distinct key among the rows. */
  lemma {:induction false} MeanTableSize<T>(rows: seq<T>, key: T -> Key, value: T -> int)
    ensures |MeanTable(Tag(rows, key, value))| == |KeySet(rows, key)|
  {
    var ks := AveragedKeys(MeanTable(Tag(rows, key, value)));
    MeanTableKeys(rows, key, value);
    AscendingIsDistinct(ks);
    DistinctCount(ks);
    assert (set x | x in ks) == KeySet(rows, key);
  }

  /** The entry `e` of a grouped mean holds the mean of its group's rows. */
  predicate GroupMean<T>(rows: seq<T>, key: T -> Key, value: T -> int, e: Averaged) {
    var group := Column(Series.Filter(rows, HasKey(key, e.key)), value);
    && |group| > 0
    && e.mean == Sum(group) as real / |group| as real
    && Min(group) as real <= e.mean <= Max(group) as real
  }

  lemma {:induction false} KeyOfSomeRow<T>(rows: seq<T>, key: T -> Key, k: Key)
    ensures k in KeysBy(rows, key) <==> exists i :: 0 <= i < |rows| && key(rows[i]) == k
  {
    if k in KeysBy(rows, key) {
      var i :| 0 <= i < |rows| && KeysBy(rows, key)[i] == k;
      assert key(rows[i]) == k;
    }
    if exists i :: 0 <= i < |rows| && key(rows[i]) == k {
      var i :| 0 <= i < |rows| && key(rows[i]) == k;
      assert KeysBy(rows, key)[i] == k;
    }
  }

  lemma {:induction false} MeanOfGroup<T>(rows: seq<T>, key: T -> Key, value: T -> int, i: nat)
    requires i < |MeanTable(Tag(rows, key, value))|
    ensures GroupMean(rows, key, value, MeanTable(Tag(rows, key, value))[i])
  {
    var tagged := Tag(rows, key, value);
    var e := MeanTable(tagged)[i];
    MeanTableProperties(tagged);
    GroupOfRows(rows, key, value, e.key);
  }

  // ---------------------------------------------------------------------------
  // Distinct values
  // ---------------------------------------------------------------------------

  /** `.groupby(keys).nunique()` of a text column: one entry per group key,
      ascending, with the number of distinct values in its rows. */
  function NuniqueTable(rows: seq<Keyed<string>>): (t: seq<Counted>)
    ensures |t| == |GroupKeys(KeysOf(rows))|
    ensures forall i :: 0 <= i < |t| ==> t[i].key == GroupKeys(KeysOf(rows))[i]
  {
    var g := GroupKeys(KeysOf(rows));
    seq(|g|, i requires 0 <= i < |g| => Counted(g[i], |set v | v in ValuesOf(rows, g[i])|))
  }

  /** A group has at least one distinct value and no more distinct values
      than rows. */
  lemma {:induction false} NuniqueBetween(rows: seq<Keyed<string>>)
    ensures forall i :: 0 <= i < |NuniqueTable(rows)| ==>
              1 <= NuniqueTable(rows)[i].count <= multiset(KeysOf(rows))[NuniqueTable(rows)[i].key]
  {
    var t := NuniqueTable(rows);
    var g := GroupKeys(KeysOf(rows));
    forall i | 0 <= i < |t| ensures 1 <= t[i].count <= multiset(KeysOf(rows))[t[i].key] {
      assert t[i] == Counted(g[i], |set v | v in ValuesOf(rows, g[i])|);
      NuniqueOfGroup(rows, g[i]);
    }
  }

  lemma {:induction false} NuniqueOfGroup(rows: seq<Keyed<string>>, k: Key)
    requires k in GroupKeys(KeysOf(rows))
    ensures 1 <= |set v | v in ValuesOf(rows, k)| <= multiset(KeysOf(rows))[k]
  {
    var vs := ValuesOf(rows, k);
    GroupIsNonEmpty(rows, k);
    DistinctValuesBetween(vs);
  }

  lemma {:induction false} DistinctValuesBetween(vs: seq<string>)
    requires |vs| > 0
    ensures 1 <= |set v | v in vs| <= |vs|
  {
    DistinctCount(vs);
    var values := set v | v in vs;
    assert vs[0] in values;
    assert |values - {vs[0]}| == |values| - 1;
  }

  /** A list holds at least as many entries as distinct values, and exactly
      as many when none repeats. */
  lemma {:induction false} DistinctCount<T>(s: seq<T>)
    ensures |set x | x in s| <= |s|
    ensures Distinct(s) ==> |set x | x in s| == |s|
  {
    if |s| > 0 {
      var init := s[..|s| - 1];
      var last := s[|s| - 1];
      DistinctCount(init);
      assert (set x | x in s) == (set x | x in init) + {last};
      if Distinct(s) {
        assert Distinct(init);
        assert last !in init;
      }
    }
  }
}
