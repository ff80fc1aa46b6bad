/** The downsampling step of `train_model` (src/train.py): only the ratings
    of the most active users and of the most rated movies are kept. */
module Training {
  import opened Seqs
  import opened Indexing

  /** `head(20000)` of the user counts and `head(10000)` of the movie counts. */
  const TopUserCount: nat := 20000
  const TopMovieCount: nat := 10000

  /** `ids.value_counts().head(k).index`: `k` of the distinct ids (all of
      them when there are fewer), none occurring less often than an id left
      out. pandas leaves the order among equal counts open, and so does this. */
  ghost predicate IsTopByCount(ids: seq<int>, top: set<int>, k: nat)
    ensures IsTopByCount(ids, top, k) ==> |top| <= k && forall x :: x in top ==> x in ids
  {
    var all := set x | x in ids;
    && top <= all
    && |top| == (if k < |all| then k else |all|)
    && forall a, b :: a in top && b in all && b !in top ==> multiset(ids)[a] >= multiset(ids)[b]
  }

  function KeepTop(topUsers: set<int>, topMovies: set<int>): Rating -> bool
  {
    (r: Rating) => r.userId in topUsers && r.movieId in topMovies
  }

  /** `ratings[ratings['userId'].isin(top_users) & ratings['movieId'].isin(top_movies)]`. */
  function Downsample(ratings: seq<Rating>, topUsers: set<int>, topMovies: set<int>): (r: seq<Rating>)
    ensures |r| <= |ratings|
    ensures forall i :: 0 <= i < |r| ==> r[i] in ratings && r[i].userId in topUsers && r[i].movieId in topMovies
  {
    Filter(ratings, KeepTop(topUsers, topMovies))
  }

  /** Exactly the rows of a top user AND a top movie are kept, each as often
      as the log holds it, in log order. */
  lemma DownsampleExact(ratings: seq<Rating>, topUsers: set<int>, topMovies: set<int>, r: Rating)
    ensures multiset(Downsample(ratings, topUsers, topMovies))[r]
         == if r.userId in topUsers && r.movieId in topMovies then multiset(ratings)[r] else 0
    ensures IsSubseq(Downsample(ratings, topUsers, topMovies), ratings)
  {
    FilterMultiset(ratings, KeepTop(topUsers, topMovies), r);
    FilterIsSubseq(ratings, KeepTop(topUsers, topMovies));
  }

  /** A log with at most 20000 distinct users and 10000 distinct movies passes
      the downsampling unchanged. */
  lemma DownsampleKeepsSmallLog(ratings: seq<Rating>, topUsers: set<int>, topMovies: set<int>)
    requires IsTopByCount(UserColumn(ratings), topUsers, TopUserCount)
    requires IsTopByCount(MovieColumn(ratings), topMovies, TopMovieCount)
    requires |set x | x in UserColumn(ratings)| <= TopUserCount
    requires |set x | x in MovieColumn(ratings)| <= TopMovieCount
    ensures Downsample(ratings, topUsers, topMovies) == ratings
  {
    SubsetFull(topUsers, set x | x in UserColumn(ratings));
    SubsetFull(topMovies, set x | x in MovieColumn(ratings));
    forall i | 0 <= i < |ratings| ensures KeepTop(topUsers, topMovies)(ratings[i]) {
      assert UserColumn(ratings)[i] == ratings[i].userId;
      assert MovieColumn(ratings)[i] == ratings[i].movieId;
    }
    FilterAll(ratings, KeepTop(topUsers, topMovies));
  }
}
