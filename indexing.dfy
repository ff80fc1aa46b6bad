/** The collaborative index of `HybridModel` (src/train.py): the dense
    re-indexing of raw user and movie ids and the sparse user x movie rating
    matrix built in `_create_sparse_matrix`. */
module Indexing {
  import opened Seqs

  /** A catalog row: `movieId`, `title` and `genres` of the movies frame. */
  datatype Movie = Movie(movieId: int, title: string, genres: string)

  /** A rating-log row. Ratings are only stored and compared, never computed with. */
  datatype Rating = Rating(userId: int, movieId: int, rating: real)

  function UserColumn(ratings: seq<Rating>): (ids: seq<int>)
    ensures |ids| == |ratings| && forall k :: 0 <= k < |ratings| ==> ids[k] == ratings[k].userId
  {
    seq(|ratings|, k requires 0 <= k < |ratings| => ratings[k].userId)
  }

  function MovieColumn(ratings: seq<Rating>): (ids: seq<int>)
    ensures |ids| == |ratings| && forall k :: 0 <= k < |ratings| ==> ids[k] == ratings[k].movieId
  {
    seq(|ratings|, k requires 0 <= k < |ratings| => ratings[k].movieId)
  }

  /** `column.unique()`: the distinct ids in first-seen order. */
  function UniqueIds(ids: seq<int>): (u: seq<int>)
    ensures forall i, j :: 0 <= i < j < |u| ==> u[i] != u[j]
  {
    var u := FirstOccurrences(ids, Identity);
    assert forall i, j :: 0 <= i < j < |u| ==> Identity(u[i]) != Identity(u[j]);
    u
  }

  /** `{id: idx for idx, id in enumerate(ids.unique())}`. */
  function Mapper(ids: seq<int>): (m: map<int, nat>)
    ensures forall x :: x in m <==> x in ids
    ensures forall x :: x in m ==> m[x] < |UniqueIds(ids)| && UniqueIds(ids)[m[x]] == x
  {
    var u := UniqueIds(ids);
    forall x ensures x in u <==> x in ids { UniqueMembers(ids, x); }
    map i | 0 <= i < |u| :: u[i] := i
  }

  /** The set 0..n-1. */
  function Indices(n: nat): (r: set<nat>)
    ensures forall i: int :: i in r <==> 0 <= i < n
  {
    if n == 0 then {} else Indices(n - 1) + {n - 1}
  }

  ghost predicate Injective(m: map<int, nat>)
  {
    forall a, b :: a in m && b in m && a != b ==> m[a] != m[b]
  }

  lemma MapperKeys(ids: seq<int>)
    ensures Mapper(ids).Keys == set x | x in ids
  {
    forall x ensures x in Mapper(ids) <==> x in ids {
      UniqueMembers(ids, x);
    }
  }

  lemma MapperCard(ids: seq<int>)
    ensures |Mapper(ids)| == |UniqueIds(ids)|
    ensures forall x :: x in Mapper(ids) ==> Mapper(ids)[x] < |Mapper(ids)|
  {
    var u := UniqueIds(ids);
    DistinctCard(u);
    assert Mapper(ids).Keys == set x | x in u;
  }

  /** The mapper is a bijection from the distinct ids onto 0..n-1. */
  lemma MapperBijective(ids: seq<int>)
    ensures Mapper(ids).Keys == set x | x in ids
    ensures forall x :: x in Mapper(ids) ==> Mapper(ids)[x] < |Mapper(ids)|
    ensures Mapper(ids).Values == Indices(|Mapper(ids)|)
    ensures Injective(Mapper(ids))
  {
    var u := UniqueIds(ids);
    var m := Mapper(ids);
    MapperKeys(ids);
    MapperCard(ids);
    forall i | 0 <= i < |u| ensures i in m.Values {
      assert u[i] in m && m[u[i]] == i;
    }
  }

  /** Indices follow first-seen order: an id seen first gets the smaller index. */
  lemma MapperFirstSeenOrder(ids: seq<int>, x: int, y: int)
    requires x in ids && y in ids
    ensures x in Mapper(ids) && y in Mapper(ids)
    ensures x in KeysOf(ids, Identity) && y in KeysOf(ids, Identity)
    ensures FirstIndex(ids, Identity, x) < FirstIndex(ids, Identity, y) <==> Mapper(ids)[x] < Mapper(ids)[y]
  {
    var u := UniqueIds(ids);
    var m := Mapper(ids);
    MapperBijective(ids);
    assert x in KeysOf(ids, Identity) && y in KeysOf(ids, Identity) by {
      assert Identity(x) == x && Identity(y) == y;
    }
    var i := m[x];
    var j := m[y];
    assert u[i] == x && u[j] == y;
    if i < j {
      FirstOccurrencesFromOrdered(ids, Identity, {}, i, j);
    } else if j < i {
      FirstOccurrencesFromOrdered(ids, Identity, {}, j, i);
    }
  }

  /** One stored (row, col, value) triple of the CSR matrix. */
  datatype Entry = Entry(row: nat, col: nat, value: real)

  /** `csr_matrix((data, (rows, cols)), shape=(nRows, nCols))`. */
  datatype SparseMatrix = SparseMatrix(nRows: nat, nCols: nat, entries: seq<Entry>)

  /** The triples of the rating log: row `user_mapper[userId]`, column
      `movie_mapper[movieId]`, value the rating. */
  function Triples(ratings: seq<Rating>, userMapper: map<int, nat>, movieMapper: map<int, nat>): (es: seq<Entry>)
    requires forall k :: 0 <= k < |ratings| ==> ratings[k].userId in userMapper && ratings[k].movieId in movieMapper
    ensures |es| == |ratings|
    ensures forall k :: 0 <= k < |es| ==> es[k].row in userMapper.Values && es[k].col in movieMapper.Values
    decreases |ratings|
  {
    if ratings == [] then []
    else
      [Entry(userMapper[ratings[0].userId], movieMapper[ratings[0].movieId], ratings[0].rating)]
      + Triples(ratings[1..], userMapper, movieMapper)
  }

  /** The value CSR gives cell (i, j): the sum of all triples stored there
      (duplicate coordinates are summed), 0 where none is. */
  function CellValue(es: seq<Entry>, i: nat, j: nat): (v: real)
    ensures (forall k :: 0 <= k < |es| ==> es[k].row != i || es[k].col != j) ==> v == 0.0
    decreases |es|
  {
    if es == [] then 0.0
    else (if es[0].row == i && es[0].col == j then es[0].value else 0.0) + CellValue(es[1..], i, j)
  }

  /** The ratings the log holds for one (userId, movieId) pair, summed. */
  function RatingSum(ratings: seq<Rating>, u: int, mv: int): real
    decreases |ratings|
  {
    if ratings == [] then 0.0
    else
      (if ratings[0].userId == u && ratings[0].movieId == mv then ratings[0].rating else 0.0)
      + RatingSum(ratings[1..], u, mv)
  }

  /** The model state built in `__init__`; it is never modified afterwards.
      The FAISS index is not part of this model (see `Recommend`). */
  datatype HybridModel = HybridModel(
    movies: seq<Movie>,
    ratings: seq<Rating>,
    matrix: SparseMatrix,
    userMapper: map<int, nat>,
    movieMapper: map<int, nat>)

  function UserMapper(ratings: seq<Rating>): map<int, nat> { Mapper(UserColumn(ratings)) }
  function MovieMapper(ratings: seq<Rating>): map<int, nat> { Mapper(MovieColumn(ratings)) }

  /** Every rating row's ids are keys of the two mappers. */
  lemma MappersCover(ratings: seq<Rating>)
    ensures forall k :: 0 <= k < |ratings| ==>
      ratings[k].userId in UserMapper(ratings) && ratings[k].movieId in MovieMapper(ratings)
  {
    MapperKeys(UserColumn(ratings));
    MapperKeys(MovieColumn(ratings));
    forall k | 0 <= k < |ratings|
      ensures ratings[k].userId in UserMapper(ratings) && ratings[k].movieId in MovieMapper(ratings)
    {
      assert UserColumn(ratings)[k] == ratings[k].userId;
      assert MovieColumn(ratings)[k] == ratings[k].movieId;
    }
  }

  /** `HybridModel(movies, ratings)` up to `_create_sparse_matrix`. */
  function Build(movies: seq<Movie>, ratings: seq<Rating>): (m: HybridModel)
    ensures m.movies == movies && m.ratings == ratings
    ensures m.matrix.nRows == |m.userMapper| && m.matrix.nCols == |m.movieMapper|
    ensures |m.matrix.entries| == |ratings|
    ensures forall k :: 0 <= k < |m.matrix.entries| ==>
      m.matrix.entries[k].row in m.userMapper.Values && m.matrix.entries[k].col in m.movieMapper.Values
  {
    var um := UserMapper(ratings);
    var mm := MovieMapper(ratings);
    MappersCover(ratings);
    HybridModel(movies, ratings, SparseMatrix(|um|, |mm|, Triples(ratings, um, mm)), um, mm)
  }

  /** What `hybrid_recommend` relies on: the movie mapper is injective and
      maps into the columns of the matrix. */
  predicate Valid(m: HybridModel)
  {
    && (forall id | id in m.movieMapper :: m.movieMapper[id] < m.matrix.nCols)
    && (forall a, b | a in m.movieMapper && b in m.movieMapper && a != b :: m.movieMapper[a] != m.movieMapper[b])
  }

  lemma {:induction false} TriplesInShape(ratings: seq<Rating>, um: map<int, nat>, mm: map<int, nat>, k: nat)
    requires forall k :: 0 <= k < |ratings| ==> ratings[k].userId in um && ratings[k].movieId in mm
    requires k < |ratings|
    ensures Triples(ratings, um, mm)[k] == Entry(um[ratings[k].userId], mm[ratings[k].movieId], ratings[k].rating)
    decreases k
  {
    if k > 0 {
      TriplesInShape(ratings[1..], um, mm, k - 1);
    }
  }

  /** The shape is (distinct users, distinct movies); every rating row becomes
      one triple at its users's row and its movie's column, inside that shape. */
  lemma BuildShape(movies: seq<Movie>, ratings: seq<Rating>, k: nat)
    requires k < |ratings|
    ensures var m := Build(movies, ratings);
      && m.matrix.nRows == |m.userMapper| == |UniqueIds(UserColumn(ratings))|
      && m.matrix.nCols == |m.movieMapper| == |UniqueIds(MovieColumn(ratings))|
      && |m.matrix.entries| == |ratings|
      && ratings[k].userId in m.userMapper && ratings[k].movieId in m.movieMapper
      && m.matrix.entries[k] == Entry(m.userMapper[ratings[k].userId], m.movieMapper[ratings[k].movieId], ratings[k].rating)
      && m.matrix.entries[k].row < m.matrix.nRows
      && m.matrix.entries[k].col < m.matrix.nCols
  {
    var um := UserMapper(ratings);
    var mm := MovieMapper(ratings);
    MappersCover(ratings);
    MapperCard(UserColumn(ratings));
    MapperCard(MovieColumn(ratings));
    TriplesInShape(ratings, um, mm, k);
  }

  lemma BuildValid(movies: seq<Movie>, ratings: seq<Rating>)
    ensures Valid(Build(movies, ratings))
  {
    MapperCard(MovieColumn(ratings));
    MapperBijective(MovieColumn(ratings));
  }

  /** Cell (user_mapper[u], movie_mapper[mv]) of the matrix holds the sum of
      the log's ratings for (u, mv); the mappers being injective, no other
      pair lands there. */
  lemma {:induction false} TriplesCellValue(ratings: seq<Rating>, um: map<int, nat>, mm: map<int, nat>, u: int, mv: int)
    requires forall k :: 0 <= k < |ratings| ==> ratings[k].userId in um && ratings[k].movieId in mm
    requires Injective(um) && Injective(mm)
    requires u in um && mv in mm
    ensures CellValue(Triples(ratings, um, mm), um[u], mm[mv]) == RatingSum(ratings, u, mv)
    decreases |ratings|
  {
    if ratings != [] {
      TriplesCellValue(ratings[1..], um, mm, u, mv);
    }
  }

  lemma BuildCellValue(movies: seq<Movie>, ratings: seq<Rating>, u: int, mv: int)
    requires u in Build(movies, ratings).userMapper && mv in Build(movies, ratings).movieMapper
    ensures var m := Build(movies, ratings);
      CellValue(m.matrix.entries, m.userMapper[u], m.movieMapper[mv]) == RatingSum(ratings, u, mv)
  {
    MappersCover(ratings);
    MapperBijective(UserColumn(ratings));
    MapperBijective(MovieColumn(ratings));
    TriplesCellValue(ratings, UserMapper(ratings), MovieMapper(ratings), u, mv);
  }
}
