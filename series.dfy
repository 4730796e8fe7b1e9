/** The two column-at-a-time operations the pages apply to a whole table:
    selecting the rows where a boolean mask holds (`df.loc[mask, :]`), and
    converting every cell of a column, which stops at the first cell that
    cannot be converted (`astype`, `apply`, `to_datetime` raise there). Each
    has a specification function and a method with the loop. */
module Series {
  import opened Wrappers

  // ---------------------------------------------------------------------------
  // Row selection
  // ---------------------------------------------------------------------------

  /** The rows for which `keep` holds, in their order. */
  function Filter<T>(s: seq<T>, keep: T -> bool): (r: seq<T>)
    ensures |r| <= |s|
    ensures forall i :: 0 <= i < |r| ==> keep(r[i])
  {
    if |s| == 0 then []
    else Filter(s[..|s| - 1], keep) + (if keep(s[|s| - 1]) then [s[|s| - 1]] else [])
  }

  /** The positions of the rows for which `keep` holds, in increasing order:
      every such position, and no other. */
  function KeptPositions<T>(s: seq<T>, keep: T -> bool): (idx: seq<nat>)
    ensures forall k :: 0 <= k < |idx| ==> idx[k] < |s| && keep(s[idx[k]])
    ensures forall k, l :: 0 <= k < l < |idx| ==> idx[k] < idx[l]
    ensures forall i :: 0 <= i < |s| && keep(s[i]) ==> i in idx
  {
    if |s| == 0 then []
    else KeptPositions(s[..|s| - 1], keep) + (if keep(s[|s| - 1]) then [|s| - 1] else [])
  }

  /** Filtering keeps exactly the rows that pass, each as often as it occurs. */
  lemma {:induction false} FilterCounts<T>(s: seq<T>, keep: T -> bool)
    ensures forall x :: multiset(Filter(s, keep))[x] == if keep(x) then multiset(s)[x] else 0
  {
    if |s| > 0 {
      FilterCounts(s[..|s| - 1], keep);
      assert s == s[..|s| - 1] + [s[|s| - 1]];
    }
  }

  /** Filtering keeps the order of the rows: the result is the rows at the
      kept positions, in increasing order of position. */
  lemma {:induction false} FilterAtKeptPositions<T>(s: seq<T>, keep: T -> bool)
    ensures |Filter(s, keep)| == |KeptPositions(s, keep)|
    ensures forall k :: 0 <= k < |Filter(s, keep)| ==> Filter(s, keep)[k] == s[KeptPositions(s, keep)[k]]
  {
    if |s| > 0 {
      FilterAtKeptPositions(s[..|s| - 1], keep);
    }
  }

  /** Two masks applied one after the other select what their conjunction
      selects. */
  lemma {:induction false} FilterTwice<T>(s: seq<T>, p: T -> bool, q: T -> bool, both: T -> bool)
    requires forall x :: both(x) == (p(x) && q(x))
    ensures Filter(Filter(s, p), q) == Filter(s, both)
  {
    if |s| > 0 {
      FilterTwice(s[..|s| - 1], p, q, both);
      var x := s[|s| - 1];
      var f := Filter(s[..|s| - 1], p);
      if p(x) {
        assert Filter(s, p) == f + [x];
        assert (f + [x])[..|f|] == f;
      } else {
        assert Filter(s, p) == f;
      }
    }
  }

  /** A mask that no row passes selects nothing. */
  lemma {:induction false} FilterNone<T>(s: seq<T>, keep: T -> bool)
    requires forall i :: 0 <= i < |s| ==> !keep(s[i])
    ensures Filter(s, keep) == []
  {
    if |s| > 0 {
      FilterNone(s[..|s| - 1], keep);
    }
  }

  /** Masks that agree on every row select the same rows. */
  lemma {:induction false} FilterSame<T>(s: seq<T>, p: T -> bool, q: T -> bool)
    requires forall i :: 0 <= i < |s| ==> p(s[i]) == q(s[i])
    ensures Filter(s, p) == Filter(s, q)
  {
    if |s| > 0 {
      FilterSame(s[..|s| - 1], p, q);
    }
  }

  /** A relation that holds between every earlier and later row still holds
      after a selection, since filtering keeps the rows in order. */
  lemma {:induction false} FilterPairwise<T>(s: seq<T>, keep: T -> bool, before: (T, T) -> bool)
    requires forall i, j :: 0 <= i < j < |s| ==> before(s[i], s[j])
    ensures forall i, j :: 0 <= i < j < |Filter(s, keep)| ==> before(Filter(s, keep)[i], Filter(s, keep)[j])
  {
    FilterAtKeptPositions(s, keep);
  }

  /** Selecting from two orderings of the same rows keeps the same rows. */
  lemma {:induction false} FilterPermutation<T>(a: seq<T>, b: seq<T>, keep: T -> bool)
    requires multiset(a) == multiset(b)
    ensures multiset(Filter(a, keep)) == multiset(Filter(b, keep))
    ensures |Filter(a, keep)| == |Filter(b, keep)|
  {
    FilterCounts(a, keep);
    FilterCounts(b, keep);
    var fa, fb := multiset(Filter(a, keep)), multiset(Filter(b, keep));
    forall x ensures fa[x] == fb[x] {
      assert multiset(a)[x] == multiset(b)[x];
    }
    SameCounts(fa, fb);
  }

  lemma {:induction false} SameCounts<T>(a: multiset<T>, b: multiset<T>)
    requires forall x :: a[x] == b[x]
    ensures a == b
  {
  }

  /** A selected row is a row of the table, and a row of the table that
      passes is selected. */
  lemma {:induction false} FilterMembers<T>(s: seq<T>, keep: T -> bool, x: T)
    ensures x in Filter(s, keep) <==> x in s && keep(x)
  {
    FilterCounts(s, keep);
    assert x in Filter(s, keep) <==> x in multiset(Filter(s, keep));
    assert x in s <==> x in multiset(s);
  }

  lemma {:induction false} FilterOfPrefix<T>(s: seq<T>, i: nat, keep: T -> bool)
    requires i < |s|
    ensures Filter(s[..i + 1], keep) == Filter(s[..i], keep) + (if keep(s[i]) then [s[i]] else [])
  {
    assert s[..i + 1][..i] == s[..i];
  }

  /** `df.loc[mask, :]`: the mask is evaluated row by row and the passing rows
      are copied into a new table. */
  method SelectRows<T>(df: seq<T>, keep: T -> bool) returns (kept: seq<T>)
    ensures kept == Filter(df, keep)
  {
    kept := [];
    var i := 0;
    while i < |df|
      invariant 0 <= i <= |df|
      invariant kept == Filter(df[..i], keep)
    {
      FilterOfPrefix(df, i, keep);
      if keep(df[i]) {
        kept := kept + [df[i]];
      }
      i := i + 1;
    }
    assert df[..i] == df;
  }

  // ---------------------------------------------------------------------------
  // Element-wise conversion that fails on the first bad cell
  // ---------------------------------------------------------------------------

  /** Converting every element of `s` with `cell`: all the values when each
      cell converts, otherwise the error of the first cell that does not. */
  function Convert<T, U, E>(s: seq<T>, cell: T -> Result<U, E>): (r: Result<seq<U>, E>)
    ensures r.Ok? <==> forall i :: 0 <= i < |s| ==> cell(s[i]).Ok?
    ensures r.Ok? ==> |r.value| == |s| && forall i :: 0 <= i < |s| ==> r.value[i] == cell(s[i]).value
    ensures r.Err? ==> exists i :: 0 <= i < |s| && cell(s[i]) == Err(r.error)
                                   && forall j :: 0 <= j < i ==> cell(s[j]).Ok?
  {
    if |s| == 0 then Ok([])
    else
      var init := s[..|s| - 1];
      assert forall i :: 0 <= i < |init| ==> init[i] == s[i];
      match Convert(init, cell)
      case Err(e) => Err(e)
      case Ok(vs) =>
        match cell(s[|s| - 1])
        case Err(e) => Err(e)
        case Ok(v) => Ok(vs + [v])
  }

  /** Once a prefix has failed, the whole column fails with that error. */
  lemma {:induction false} ConvertFailedPrefix<T, U, E>(s: seq<T>, k: nat, cell: T -> Result<U, E>)
    requires k <= |s| && Convert(s[..k], cell).Err?
    ensures Convert(s, cell) == Convert(s[..k], cell)
    decreases |s| - k
  {
    if k < |s| {
      assert s[..k + 1][..k] == s[..k];
      ConvertFailedPrefix(s, k + 1, cell);
    } else {
      assert s[..k] == s;
    }
  }

  /** The conversion loop: stops with the first cell's error, like the
      exception pandas raises there. */
  method ConvertColumn<T, U, E>(column: seq<T>, cell: T -> Result<U, E>) returns (r: Result<seq<U>, E>)
    ensures r == Convert(column, cell)
  {
    var values: seq<U> := [];
    var i := 0;
    while i < |column|
      invariant 0 <= i <= |column|
      invariant Convert(column[..i], cell) == Ok(values)
    {
      assert column[..i + 1][..i] == column[..i];
      match cell(column[i])
      case Err(e) =>
        ConvertFailedPrefix(column, i + 1, cell);
        return Err(e);
      case Ok(v) =>
        values := values + [v];
      i := i + 1;
    }
    assert column[..i] == column;
    r := Ok(values);
  }

  // ---------------------------------------------------------------------------
  // Column assignment
  // ---------------------------------------------------------------------------

  /** `df.loc[:, col] = f(df.loc[:, col])`: every row is replaced in place by
      its updated copy, one position at a time. */
  method UpdateRows<T>(df: seq<T>, update: T -> T) returns (out: seq<T>)
    ensures |out| == |df| && forall i :: 0 <= i < |df| ==> out[i] == update(df[i])
  {
    out := df;
    var i := 0;
    while i < |out|
      invariant 0 <= i <= |out| == |df|
      invariant forall j :: 0 <= j < i ==> out[j] == update(df[j])
      invariant forall j :: i <= j < |df| ==> out[j] == df[j]
    {
      out := out[i := update(out[i])];
      i := i + 1;
    }
  }
}
