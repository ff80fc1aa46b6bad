# Hybrid movie recommender: a Dafny model of its bookkeeping

The repository recommends movies from a few titles a user says they like. It
mixes a content-based list (genre similarity) with a collaborative list
(nearest neighbours in a user x movie rating matrix). The similarity
arithmetic belongs to outside libraries (FAISS, difflib, scikit-learn) and
works on floats. This project models the logic around it and proves what
that logic guarantees:

- `Indexing` (src/train.py, `_create_sparse_matrix`): user and movie ids are
  re-indexed densely in first-seen order. Every rating row becomes a
  (row, col, rating) triple inside the (distinct users x distinct movies)
  shape. Duplicate coordinates are summed, as CSR does.
- `TitleMatch` (src/train.py, `find_closest_title`): the best catalog title
  for a typed title, or none. difflib's ratio is a parameter `score`, and the
  cutoff 0.6 is kept.
- `Recommend` (src/train.py, `hybrid_recommend`): methods over an array and
  loops. They build the user profile in place, read collaborative candidates
  back through the inverted movie mapper, merge them with the content titles
  in a set, truncate to `top_n`, and select catalog rows.
- `Training` (src/train.py, `train_model`): the filter that keeps only
  ratings of the top users and top movies.
- `DataHandler` (src/utils.py): `clean_data` (drop duplicates, keep the
  first, then drop missing ratings) and `create_matrix` (count thresholds 50
  and 100 on the unfiltered data, then the pivot with 0 for empty cells).
- `Seqs`: the shared sequence vocabulary: mask filters, subsequences, first
  occurrences by key, insertion sort, and Python's string order.

Outside collaborators are parameters:
- `score(input, candidate)`: difflib's `SequenceMatcher.ratio`.
- `search(profile, k)`: the FAISS inner-product search. It may return any
  integers, -1 included.
- `contentRecs`: the titles `ContentModel.content_recommendations` returns.
- `agg`: the mean `pivot_table` takes over a cell's ratings.

Behaviour of the code worth noting, which the model follows:

- Ties in `find_closest_title`: `get_close_matches` takes the largest
  `(score, title)` pair. Among equal scores the lexicographically larger
  title wins, not the first one in catalog order (`TitleMatch.Outranks`).
- The FAISS index is built over the matrix's user rows (src/train.py:66-69).
  The search results are still read back as movie columns through the
  movie mapper (src/train.py:124-126). So the model makes no assumption
  about the returned indices. It only proves what the read-back does with
  any integers.
- A search index whose movie id is 0 is skipped (`if movie_id:`). So is a
  matched title that is the empty string (`if matched_title:`).
- `collab_movies` is not deduplicated. Only the later set removes
  duplicates.
- The merge is an unordered set cut to `top_n`. The model enumerates it in
  an arbitrary order (`Recommend.EnumerateSet`), so nothing is proved about
  rank.
- The returned frame lists catalog rows in catalog order. Because catalog
  titles may repeat, `head(top_n)` is what bounds it.
- `content_weight` is accepted and never read.

## Model

| member | source | states |
|---|---|---|
| `Indexing.Mapper` | src/train.py:40-44 | the keys are exactly the ids of the column, and each id's index points back to it in the list of distinct ids |
| `Indexing.MapperBijective` | src/train.py:40-44 | the mapper's keys are exactly the distinct ids, its values are exactly 0..n-1 with n its size, and it is injective |
| `Indexing.MapperFirstSeenOrder` | src/train.py:40-44 | one id's first appearance precedes another's exactly when its index is smaller |
| `Indexing.Triples` | src/train.py:47-51 | one triple per rating row, each at a row and a column the two mappers assign |
| `Indexing.CellValue` | src/train.py:50-53 | a cell that no triple names is 0 |
| `Indexing.Build` | src/train.py:39-55 | the model keeps the catalog and the log, its shape is (len(user_mapper), len(movie_mapper)), and it holds one triple per rating at mapped coordinates |
| `Indexing.BuildShape` | src/train.py:47-53 | the shape is (distinct users, distinct movies); rating row k becomes triple k at (user_mapper[userId], movie_mapper[movieId]) with its rating, inside the shape |
| `Indexing.BuildCellValue` | src/train.py:50-53 | the matrix cell of a (user, movie) pair is the sum of that pair's ratings in the log |
| `Indexing.BuildValid` | src/train.py:44 | a built model's movie mapper is injective and maps into the matrix columns |
| `TitleMatch.FindClosestTitle` | src/train.py:80-82 | None exactly when no catalog title scores at least 0.6; otherwise a catalog title scoring at least 0.6 |
| `TitleMatch.BestMatch` | src/train.py:81 | None exactly when no title reaches the cutoff; otherwise a listed title at or above the cutoff that no other qualifying title outranks in (score, title) order |
| `TitleMatch.FindClosestTitleSpec` | src/train.py:80-82 | the same over the catalog: None or a catalog title scored at least 0.6 and not outranked |
| `TitleMatch.FindClosestTitleCanonical` | src/train.py:80-82 | a catalog title that scores itself above every other title resolves to itself |
| `Recommend.Resolved` | src/train.py:106-107 | a truthy match is a non-empty catalog title |
| `Recommend.MovieIdOfTitle` | src/train.py:109 | the id is that of the first catalog row with the matched title |
| `Recommend.Target` | src/train.py:109-111 | the profile position an input writes is a column of the matrix |
| `Recommend.Overwrite` | src/train.py:102-112 | keeps the array's length for any run of (position, value) writes that stay inside it |
| `Recommend.OverwriteUntouched` | src/train.py:102-112 | a position no write names keeps its initial 0 |
| `Recommend.OverwriteLastWriter` | src/train.py:105-112 | a position holds the value of the last write that names it |
| `Recommend.Writes` | src/train.py:105-111 | one write per input entry: its target position, always a matrix column, and its rating |
| `Recommend.MatchedOf` | src/train.py:103-108 | every key of `matched_titles` is an input title, and every value is a non-empty catalog title |
| `Recommend.ProfileOf` | src/train.py:102-112 | the profile has one entry per movie column |
| `Recommend.ProfileUntouched` | src/train.py:105-112 | a position no input title targets stays 0 |
| `Recommend.ProfileLastWriter` | src/train.py:105-112 | a targeted position holds the rating of the last input, in dict order, that targets it |
| `Recommend.MatchedOfSpec` | src/train.py:105-108 | `matched_titles` has exactly the input titles that resolve, each mapped to its resolved title |
| `Recommend.MatchedValues` | src/train.py:103-108 | a title is a value of `matched_titles` exactly when some input resolves to it |
| `Recommend.ProfileZeroWithoutTargets` | src/train.py:102-116 | when no input resolves to a movie of the mapper, the profile is all zero |
| `Recommend.BuildProfile` | src/train.py:102-113 | a fresh array of length len(movie_mapper) that ends equal to `ProfileOf`; the dict ends equal to `MatchedOf` |
| `Recommend.Excluded` | src/train.py:132 | every input title and every matched title is excluded, and nothing else is |
| `Recommend.CandidateTitle` | src/train.py:126-133 | a candidate is a catalog title that is not excluded |
| `Recommend.Invert` | src/train.py:124 | the inverted mapper's keys are the mapper's values, and each maps back to the id that has it |
| `Recommend.CandidateTitleSpec` | src/train.py:125-133 | a candidate comes from an index the mapper assigned (so never -1) whose id is non-zero; it is the first catalog row with that id and is not excluded |
| `Recommend.CandidateTitleComplete` | src/train.py:126-133 | the index the mapper gives a non-zero id yields the title of the first catalog row with that id, unless that title is excluded |
| `Recommend.CollabOf` | src/train.py:125-133 | at most one title per search index, none excluded |
| `Recommend.CollabOfSpec` | src/train.py:125-133 | a title is collected exactly when some search index yields it; none is an input key or a matched title; at most one per index |
| `Recommend.CollabFor` | src/train.py:115-133 | no collaborative title when the profile is all zero; none is an input title or a matched title |
| `Recommend.CollabCandidates` | src/train.py:115-133 | an all-zero profile gives no candidates; otherwise the candidates of the indices the search returns for k = top_n * 3; none is excluded |
| `Recommend.CombineRecommendations` | src/train.py:138-150 | the set is the non-excluded content titles plus the collaborative titles; the final list is min(top_n, set size) distinct members of the set |
| `Recommend.EnumerateSet` | src/train.py:150 | `list(set)` lists each member exactly once |
| `Recommend.ResultFrame` | src/train.py:154-158 | each row has a final title. An empty final list gives no rows; otherwise there are min(top_n, number of catalog rows with a final title) rows |
| `Recommend.ResultFrameRows` | src/train.py:155 | the rows are a subsequence of the catalog in catalog order; when at most top_n catalog rows have a final title, all of them appear |
| `Recommend.HybridRecommend` | src/train.py:84-158 | `final_recommendations` is min(top_n, number of candidates) distinct members of the candidate set: the non-excluded content titles plus the collaborative titles. The rows are exactly the frame selected for that list: at most top_n catalog rows in catalog order, none titled as an input or a matched title, content titles only when the profile is all zero |
| `Training.IsTopByCount` | src/train.py:180-181 | a set that meets the definition holds at most k ids, all of them from the column |
| `Training.Downsample` | src/train.py:182 | every kept row is a row of the log, of a top user and of a top movie |
| `Training.DownsampleExact` | src/train.py:180-182 | exactly the rows of a top user and a top movie are kept, with their multiplicity, in log order |
| `Training.DownsampleKeepsSmallLog` | src/train.py:180-182 | with at most 20000 distinct users and 10000 distinct movies, nothing is dropped |
| `DataHandler.CleanData` | src/utils.py:19-26 | no kept row lacks a rating, and no two kept rows share a (userId, movieId) pair |
| `DataHandler.CleanDataSubseq` | src/utils.py:21-24 | the cleaned rows are an order-preserving subsequence of the input |
| `DataHandler.CleanDataRowsAreFirst` | src/utils.py:21 | each kept row is the first input row of its pair |
| `DataHandler.CleanDataFirstRowDecides` | src/utils.py:21-24 | a pair survives exactly when its first row has a rating, so a later rated duplicate does not rescue it |
| `DataHandler.CleanDataDropsPairWithUnratedFirstRow` | src/utils.py:21-24 | a pair whose first row is unrated and whose duplicate is rated disappears |
| `DataHandler.FilterActive` | src/utils.py:30-37 | every kept row is an input row whose user has at least 50 rows and whose title at least 100, counted on the input |
| `DataHandler.FilterActiveExact` | src/utils.py:30-37 | exactly the rows whose user has at least 50 rows and whose title has at least 100 rows survive, counted on the unfiltered input, as an order-preserving subsequence |
| `DataHandler.Cell` | src/utils.py:39-43 | a cell with no rated row is 0; otherwise it is the aggregate of that cell's ratings |
| `DataHandler.PivotIndex` | src/utils.py:39-40 | the pivot index is strictly ascending |
| `DataHandler.PivotColumns` | src/utils.py:39-41 | the pivot columns are strictly ascending in code-point order |
| `DataHandler.PivotIndexUsers` | src/utils.py:39-43 | the pivot index is ascending and holds exactly the surviving users with a rating |
| `DataHandler.PivotColumnsTitles` | src/utils.py:39-43 | the pivot columns are ascending and hold exactly the surviving titles with a rating |
| `DataHandler.CreateMatrix` | src/utils.py:39-43 | the values form an index x columns grid whose cells are those of the surviving rows |
| `DataHandler.CellZeroWhenUnrated` | src/utils.py:43 | a cell with no rating in the surviving rows is 0 |

## Left out

- FAISS: building the index, L2 normalisation and the search itself
  (src/train.py:57-71, 119-120) are float and library code. The search is
  the `search` parameter. The profile it receives is the unnormalised one.
- difflib's ratio and its `real_quick_ratio`/`quick_ratio` prefilters. These
  are upper bounds of the ratio, so the cutoff test is the same. The score
  is the `score` parameter.
- `ContentModel` and its genre-vector cosine similarity. src/utils.py does
  not define it. Its output is the `contentRecs` parameter.
- The mean aggregation of `pivot_table` is float averaging. It is the `agg`
  parameter.
- Recommend.BuildProfile: ratings are stored as exact reals. The float32
  rounding of the profile array is not modelled.
- Ranking by `value_counts`: the top-user and top-movie sets are
  parameters, described by `Training.IsTopByCount`.
- CSV loading (`load_data`), `preprocess_movies` (called by the training
  code but not defined in src/utils.py), joblib persistence, the
  `__main__` patching and the debug prints are I/O and plumbing.
- Negative `top_n`: `top_n` is a natural number. Python's semantics of a
  negative slice bound and a negative `head` are not modelled. What the
  search does for k = 0 is left to the `search` parameter.
- Recommend.Invert: the inverse is defined only for an injective mapper, as
  every built model's is (`Indexing.BuildValid`). Python's last-key-wins
  inversion of a map with collisions is not modelled.
- NaN user or movie ids in `drop_duplicates` and in the group keys of
  `pivot_table`: ids are integers here.
- `Visualizer`, src/visualize.py, src/simple_test.py, src/data_debug.py,
  src/test.py and src/main.py are plotting, driver and debug scripts. They
  are not part of this model.
