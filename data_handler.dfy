/** The row cleaning and filtering of `DataHandler` (src/utils.py): duplicate
    removal and missing-rating removal in `clean_data`, and the activity
    filter and pivot of `create_matrix`. */
module DataHandler {
  import opened Seqs

  /** One row of the merged ratings/movies frame; `rating` is None where the
      rating cell is missing (NaN). */
  datatype Record = Record(userId: int, movieId: int, rating: Option<real>, title: string)

  /** The subset `['userId', 'movieId']` that `drop_duplicates` compares. */
  function PairKey(r: Record): (int, int) { (r.userId, r.movieId) }

  predicate HasRating(r: Record) { r.rating.Some? }

  /** `clean_data`: keep the first row of each (userId, movieId) pair, then
      drop the rows whose rating is missing. */
  function CleanData(data: seq<Record>): (r: seq<Record>)
    ensures forall i :: 0 <= i < |r| ==> r[i].rating.Some?
    ensures forall i, j :: 0 <= i < j < |r| ==> PairKey(r[i]) != PairKey(r[j])
  {
    var deduped := FirstOccurrences(data, PairKey);
    FilterKeepsDistinctKeys(deduped, HasRating, PairKey);
    Filter(deduped, HasRating)
  }

  lemma CleanDataSubseq(data: seq<Record>)
    ensures IsSubseq(CleanData(data), data)
  {
    var deduped := FirstOccurrences(data, PairKey);
    FirstOccurrencesFromSubseq(data, PairKey, {});
    FilterIsSubseq(deduped, HasRating);
    SubseqTransitive(CleanData(data), deduped, data);
  }

  /** Every kept row is the first input row of its pair. */
  lemma CleanDataRowsAreFirst(data: seq<Record>, i: nat)
    requires i < |CleanData(data)|
    ensures PairKey(CleanData(data)[i]) in KeysOf(data, PairKey)
    ensures CleanData(data)[i] == data[FirstIndex(data, PairKey, PairKey(CleanData(data)[i]))]
  {
    var deduped := FirstOccurrences(data, PairKey);
    var row := CleanData(data)[i];
    assert row in CleanData(data);
    FilterMember(deduped, HasRating, row);
    var k :| 0 <= k < |deduped| && deduped[k] == row;
    FirstOccurrencesFromAreFirst(data, PairKey, {}, k);
  }

  /** A pair survives cleaning exactly when its FIRST row has a rating: since
      duplicates are dropped before missing ratings, a later rated duplicate
      does not rescue a pair whose first row is unrated. */
  lemma CleanDataFirstRowDecides(data: seq<Record>, key: (int, int))
    ensures key in KeysOf(CleanData(data), PairKey)
        <==> key in KeysOf(data, PairKey) && data[FirstIndex(data, PairKey, key)].rating.Some?
  {
    var deduped := FirstOccurrences(data, PairKey);
    if key in KeysOf(CleanData(data), PairKey) {
      var row :| row in CleanData(data) && PairKey(row) == key;
      var i :| 0 <= i < |CleanData(data)| && CleanData(data)[i] == row;
      CleanDataRowsAreFirst(data, i);
    }
    if key in KeysOf(data, PairKey) && data[FirstIndex(data, PairKey, key)].rating.Some? {
      assert key in KeysOf(deduped, PairKey);
      var row :| row in deduped && PairKey(row) == key;
      var k :| 0 <= k < |deduped| && deduped[k] == row;
      FirstOccurrencesFromAreFirst(data, PairKey, {}, k);
      FilterMember(deduped, HasRating, row);
    }
  }

  /** The pair (1, 10): its first row has no rating, the duplicate after it has one. */
  lemma CleanDataDropsPairWithUnratedFirstRow()
    ensures CleanData([Record(1, 10, None, "Heat"), Record(1, 10, Some(4.0), "Heat")]) == []
  {
    var data := [Record(1, 10, None, "Heat"), Record(1, 10, Some(4.0), "Heat")];
    var deduped := FirstOccurrences(data, PairKey);
    assert FirstOccurrencesFrom(data[1..], PairKey, {(1, 10)}) == [];
    assert deduped == [data[0]];
  }

  // ---------------------------------------------------------------------------
  // create_matrix
  // ---------------------------------------------------------------------------

  const MinUserRatings: nat := 50
  const MinTitleRatings: nat := 100

  function UserIds(data: seq<Record>): (ids: seq<int>)
    ensures |ids| == |data| && forall i :: 0 <= i < |data| ==> ids[i] == data[i].userId
  {
    seq(|data|, i requires 0 <= i < |data| => data[i].userId)
  }

  function TitlesOf(data: seq<Record>): (ts: seq<string>)
    ensures |ts| == |data| && forall i :: 0 <= i < |data| ==> ts[i] == data[i].title
  {
    seq(|data|, i requires 0 <= i < |data| => data[i].title)
  }

  /** `value_counts()` of the user column and of the title column of `data`. */
  function UserCount(data: seq<Record>, u: int): nat { multiset(UserIds(data))[u] }
  function TitleCount(data: seq<Record>, t: string): nat { multiset(TitlesOf(data))[t] }

  /** The boolean mask of `create_matrix`, with both counts taken on `data`. */
  function ActiveAndPopular(data: seq<Record>): Record -> bool
  {
    (r: Record) => UserCount(data, r.userId) >= MinUserRatings && TitleCount(data, r.title) >= MinTitleRatings
  }

  function FilterActive(data: seq<Record>): (r: seq<Record>)
    ensures |r| <= |data|
    ensures forall i :: 0 <= i < |r| ==>
      r[i] in data && UserCount(data, r[i].userId) >= MinUserRatings && TitleCount(data, r[i].title) >= MinTitleRatings
  {
    Filter(data, ActiveAndPopular(data))
  }

  /** The filter keeps exactly the rows of an active user and a popular title,
      each as often as the input holds it, counts taken on the unfiltered input. */
  lemma FilterActiveExact(data: seq<Record>, r: Record)
    ensures multiset(FilterActive(data))[r]
         == if UserCount(data, r.userId) >= MinUserRatings && TitleCount(data, r.title) >= MinTitleRatings
            then multiset(data)[r] else 0
    ensures IsSubseq(FilterActive(data), data)
  {
    FilterMultiset(data, ActiveAndPopular(data), r);
    FilterIsSubseq(data, ActiveAndPopular(data));
  }

  /** `pivot_table(index='userId', columns='title', values='rating').fillna(0)`;
      `values[i][j]` is the cell of user `index[i]` and title `columns[j]`. */
  datatype Pivot = Pivot(index: seq<int>, columns: seq<string>, values: seq<seq<real>>)

  /** The ratings `pivot_table` groups into the cell (u, t); missing ratings
      are skipped by the aggregation. */
  function CellRatings(rows: seq<Record>, u: int, t: string): (rs: seq<real>)
    ensures |rs| == 0 <==> forall i :: 0 <= i < |rows| ==> !(rows[i].userId == u && rows[i].title == t && rows[i].rating.Some?)
    decreases |rows|
  {
    if rows == [] then []
    else
      (if rows[0].userId == u && rows[0].title == t && rows[0].rating.Some? then [rows[0].rating.value] else [])
      + CellRatings(rows[1..], u, t)
  }

  /** A cell with no rating is 0 (`fillna(0)`); otherwise the aggregate the
      caller supplies (pandas' mean) of its ratings. */
  function Cell(rows: seq<Record>, u: int, t: string, agg: seq<real> -> real): (v: real)
    ensures (forall i :: 0 <= i < |rows| ==> !(rows[i].userId == u && rows[i].title == t && rows[i].rating.Some?)) ==> v == 0.0
    ensures (exists i :: 0 <= i < |rows| && rows[i].userId == u && rows[i].title == t && rows[i].rating.Some?) ==>
      v == agg(CellRatings(rows, u, t))
  {
    var rs := CellRatings(rows, u, t);
    if rs == [] then 0.0 else agg(rs)
  }

  /** The rows of the surviving data that carry a rating. */
  function RatedRows(data: seq<Record>): seq<Record>
  {
    Filter(FilterActive(data), HasRating)
  }

  /** The pivot's index: the distinct users of the rated surviving rows, ascending. */
  function PivotIndex(data: seq<Record>): (ix: seq<int>)
    ensures SortedBy(ix, IntLess)
  {
    var u := FirstOccurrences(UserIds(RatedRows(data)), Identity);
    assert forall i, j :: 0 <= i < j < |u| ==> Identity(u[i]) != Identity(u[j]);
    IntLessIsStrictTotalOrder();
    SortByStrictlySorted(u, IntLess);
    SortBy(u, IntLess)
  }

  /** The pivot's columns: the distinct titles of the rated surviving rows, ascending. */
  function PivotColumns(data: seq<Record>): (cs: seq<string>)
    ensures SortedBy(cs, StrLess)
  {
    var u := FirstOccurrences(TitlesOf(RatedRows(data)), Identity);
    assert forall i, j :: 0 <= i < j < |u| ==> Identity(u[i]) != Identity(u[j]);
    StrLessIsStrictTotalOrder();
    SortByStrictlySorted(u, StrLess);
    SortBy(u, StrLess)
  }

  function Grid(rows: seq<Record>, users: seq<int>, titles: seq<string>, agg: seq<real> -> real): (g: seq<seq<real>>)
    ensures |g| == |users|
    ensures forall i :: 0 <= i < |users| ==> |g[i]| == |titles|
    ensures forall i, j :: 0 <= i < |users| && 0 <= j < |titles| ==> g[i][j] == Cell(rows, users[i], titles[j], agg)
  {
    seq(|users|, i requires 0 <= i < |users| =>
      seq(|titles|, j requires 0 <= j < |titles| => Cell(rows, users[i], titles[j], agg)))
  }

  /** `create_matrix`. Group keys come only from rows that have a rating (a
      group whose ratings are all missing is dropped), and pandas sorts both
      the index and the columns. */
  function CreateMatrix(data: seq<Record>, agg: seq<real> -> real): (p: Pivot)
    ensures |p.values| == |p.index|
    ensures forall i :: 0 <= i < |p.index| ==> |p.values[i]| == |p.columns|
    ensures forall i, j :: 0 <= i < |p.index| && 0 <= j < |p.columns| ==>
              p.values[i][j] == Cell(FilterActive(data), p.index[i], p.columns[j], agg)
  {
    var users := PivotIndex(data);
    var titles := PivotColumns(data);
    Pivot(users, titles, Grid(FilterActive(data), users, titles, agg))
  }

  /** A user occurs in the rated rows exactly when a row of that user has a
      rating. */
  lemma RatedUser(rows: seq<Record>, u: int)
    ensures u in UserIds(Filter(rows, HasRating)) <==> exists r :: r in rows && r.rating.Some? && r.userId == u
  {
    var rated := Filter(rows, HasRating);
    if u in UserIds(rated) {
      var i :| 0 <= i < |rated| && UserIds(rated)[i] == u;
      FilterMember(rows, HasRating, rated[i]);
    }
    if exists r :: r in rows && r.rating.Some? && r.userId == u {
      var r :| r in rows && r.rating.Some? && r.userId == u;
      FilterMember(rows, HasRating, r);
      var i :| 0 <= i < |rated| && rated[i] == r;
      assert UserIds(rated)[i] == u;
    }
  }

  /** A title occurs in the rated rows exactly when a row of that title has
      a rating. */
  lemma RatedTitle(rows: seq<Record>, t: string)
    ensures t in TitlesOf(Filter(rows, HasRating)) <==> exists r :: r in rows && r.rating.Some? && r.title == t
  {
    var rated := Filter(rows, HasRating);
    if t in TitlesOf(rated) {
      var i :| 0 <= i < |rated| && TitlesOf(rated)[i] == t;
      FilterMember(rows, HasRating, rated[i]);
    }
    if exists r :: r in rows && r.rating.Some? && r.title == t {
      var r :| r in rows && r.rating.Some? && r.title == t;
      FilterMember(rows, HasRating, r);
      var i :| 0 <= i < |rated| && rated[i] == r;
      assert TitlesOf(rated)[i] == t;
    }
  }

  /** The pivot's index: ascending, one entry per surviving user that has a rating. */
  lemma PivotIndexUsers(data: seq<Record>, u: int)
    ensures SortedBy(PivotIndex(data), IntLess)
    ensures u in PivotIndex(data)
        <==> exists r :: r in FilterActive(data) && r.rating.Some? && r.userId == u
  {
    var ids := UserIds(RatedRows(data));
    IntLessIsStrictTotalOrder();
    SortByStrictlySorted(FirstOccurrences(ids, Identity), IntLess);
    UniqueMembers(ids, u);
    RatedUser(FilterActive(data), u);
  }

  /** The pivot's columns: ascending, one entry per surviving title that has a rating. */
  lemma PivotColumnsTitles(data: seq<Record>, t: string)
    ensures SortedBy(PivotColumns(data), StrLess)
    ensures t in PivotColumns(data)
        <==> exists r :: r in FilterActive(data) && r.rating.Some? && r.title == t
  {
    var ts := TitlesOf(RatedRows(data));
    StrLessIsStrictTotalOrder();
    SortByStrictlySorted(FirstOccurrences(ts, Identity), StrLess);
    UniqueMembers(ts, t);
    RatedTitle(FilterActive(data), t);
  }


  /** A cell is 0 exactly when no surviving row of that user and title has a rating. */
  lemma CellZeroWhenUnrated(rows: seq<Record>, u: int, t: string, agg: seq<real> -> real)
    requires forall r :: r in rows ==> !(r.userId == u && r.title == t && r.rating.Some?)
    ensures Cell(rows, u, t, agg) == 0.0
  {
    assert CellRatings(rows, u, t) == [] by {
      forall i | 0 <= i < |rows| ensures !(rows[i].userId == u && rows[i].title == t && rows[i].rating.Some?) {
        assert rows[i] in rows;
      }
    }
  }
}
