/** The bookkeeping of `HybridModel.hybrid_recommend` (src/train.py): the
    user profile over the movie columns, the collaborative candidates read
    back from the nearest-neighbour search, the set-based merge with the
    content-based titles, and the selection of catalog rows.

    Collaborators outside this model are parameters: `score` is difflib's
    string ratio, `search` is the FAISS inner-product search (it receives the
    profile and `k` and may return any indices, -1 included), and
    `contentRecs` is the title list that `ContentModel` returns. */
module Recommend {
  import opened Seqs
  import opened Indexing
  import opened TitleMatch

  /** `user_ratings.items()` in the dict's insertion order: typed title and rating. */
  type Prefs = seq<(string, real)>

  /** One row of the returned frame, the columns `title` and `genres`. */
  datatype Row = Row(title: string, genres: string)

  // ---------------------------------------------------------------------------
  // Profile (the `for title, rating in user_ratings.items()` loop)
  // ---------------------------------------------------------------------------

  /** `matched_title` when it is truthy: None and the empty string are not. */
  function Resolved(m: HybridModel, score: (string, string) -> real, title: string): (r: Option<string>)
    ensures r.Some? ==> r.value != "" && r.value in Titles(m.movies)
  {
    var r := FindClosestTitle(m.movies, title, score);
    if r.Some? && r.value != "" then r else None
  }

  function HasTitle(t: string): Movie -> bool { (mv: Movie) => mv.title == t }
  function HasId(id: int): Movie -> bool { (mv: Movie) => mv.movieId == id }

  /** `self.movies[self.movies['title'] == t]['movieId'].values[0]`. */
  function MovieIdOfTitle(movies: seq<Movie>, t: string): (id: int)
    requires t in Titles(movies)
    ensures exists i :: 0 <= i < |movies| && movies[i].title == t && movies[i].movieId == id
              && forall j :: 0 <= j < i ==> movies[j].title != t
  {
    match FirstWhere(movies, HasTitle(t))
    case Some(i) => movies[i].movieId
    case None => assert false; 0
  }

  /** The profile position an input title writes, if any: its match's movie id
      must be a key of the movie mapper. */
  function Target(m: HybridModel, score: (string, string) -> real, title: string): (r: Option<nat>)
    requires Valid(m)
    ensures r.Some? ==> r.value < m.matrix.nCols
  {
    match Resolved(m, score, title)
    case None => None
    case Some(t) =>
      var id := MovieIdOfTitle(m.movies, t);
      if id in m.movieMapper then Some(m.movieMapper[id]) else None
  }

  /** A run of writes into a zero array of length `n`: each write stores its
      value at its position, if it has one, later writes overwriting earlier
      ones. */
  function Overwrite(n: nat, w: seq<(Option<nat>, real)>): (p: seq<real>)
    requires forall k :: 0 <= k < |w| && w[k].0.Some? ==> w[k].0.value < n
    ensures |p| == n
    decreases |w|
  {
    if w == [] then seq(n, _ => 0.0)
    else
      var p := Overwrite(n, w[..|w| - 1]);
      var last := w[|w| - 1];
      if last.0.Some? then p[last.0.value := last.1] else p
  }

  /** A position no write names stays 0. */
  lemma {:induction false} OverwriteUntouched(n: nat, w: seq<(Option<nat>, real)>, j: nat)
    requires forall k :: 0 <= k < |w| && w[k].0.Some? ==> w[k].0.value < n
    requires j < n
    requires forall k :: 0 <= k < |w| ==> w[k].0 != Some(j)
    ensures Overwrite(n, w)[j] == 0.0
    decreases |w|
  {
    if w != [] {
      var init := w[..|w| - 1];
      assert forall k :: 0 <= k < |init| ==> init[k] == w[k];
      OverwriteUntouched(n, init, j);
    }
  }

  /** A position holds the value of the last write that names it. */
  lemma {:induction false} OverwriteLastWriter(n: nat, w: seq<(Option<nat>, real)>, j: nat, k: nat)
    requires forall l :: 0 <= l < |w| && w[l].0.Some? ==> w[l].0.value < n
    requires k < |w| && w[k].0 == Some(j)
    requires forall l :: k < l < |w| ==> w[l].0 != Some(j)
    ensures Overwrite(n, w)[j] == w[k].1
    decreases |w|
  {
    var init := w[..|w| - 1];
    if k < |w| - 1 {
      assert forall l :: 0 <= l < |init| ==> init[l] == w[l];
      OverwriteLastWriter(n, init, j, k);
    }
  }

  /** The writes of the loop over `prefs`: each entry's target and rating. */
  function Writes(m: HybridModel, score: (string, string) -> real, prefs: Prefs): (w: seq<(Option<nat>, real)>)
    requires Valid(m)
    ensures |w| == |prefs|
    ensures forall k :: 0 <= k < |prefs| ==> w[k] == (Target(m, score, prefs[k].0), prefs[k].1)
    ensures forall k :: 0 <= k < |w| && w[k].0.Some? ==> w[k].0.value < m.matrix.nCols
    decreases |prefs|
  {
    if prefs == [] then []
    else
      var last := prefs[|prefs| - 1];
      Writes(m, score, prefs[..|prefs| - 1]) + [(Target(m, score, last.0), last.1)]
  }

  /** The profile after the loop has visited `prefs`. */
  function ProfileOf(m: HybridModel, score: (string, string) -> real, prefs: Prefs): (p: seq<real>)
    requires Valid(m)
    ensures |p| == m.matrix.nCols
  {
    Overwrite(m.matrix.nCols, Writes(m, score, prefs))
  }

  /** `matched_titles` after the loop has visited `prefs`. */
  function MatchedOf(m: HybridModel, score: (string, string) -> real, prefs: Prefs): (mt: map<string, string>)
    ensures forall title :: title in mt ==> exists k :: 0 <= k < |prefs| && prefs[k].0 == title
    ensures forall title :: title in mt ==> mt[title] != "" && mt[title] in Titles(m.movies)
    decreases |prefs|
  {
    if prefs == [] then map[]
    else
      var mt := MatchedOf(m, score, prefs[..|prefs| - 1]);
      var title := prefs[|prefs| - 1].0;
      match Resolved(m, score, title)
      case None => mt
      case Some(t) => mt[title := t]
  }

  /** Position `j` of the profile stays 0 when no entry targets it. */
  lemma ProfileUntouched(m: HybridModel, score: (string, string) -> real, prefs: Prefs, j: nat)
    requires Valid(m)
    requires j < m.matrix.nCols
    requires forall k :: 0 <= k < |prefs| ==> Target(m, score, prefs[k].0) != Some(j)
    ensures ProfileOf(m, score, prefs)[j] == 0.0
  {
    OverwriteUntouched(m.matrix.nCols, Writes(m, score, prefs), j);
  }

  /** Position `j` of the profile holds the rating of the LAST entry whose
      target is `j`. */
  lemma ProfileLastWriter(m: HybridModel, score: (string, string) -> real, prefs: Prefs, j: nat, k: nat)
    requires Valid(m)
    requires k < |prefs| && Target(m, score, prefs[k].0) == Some(j)
    requires forall l :: k < l < |prefs| ==> Target(m, score, prefs[l].0) != Some(j)
    ensures ProfileOf(m, score, prefs)[j] == prefs[k].1
  {
    OverwriteLastWriter(m.matrix.nCols, Writes(m, score, prefs), j, k);
  }

  /** `matched_titles` maps exactly the input titles that resolve, each to
      its resolved title. */
  lemma {:induction false} MatchedOfSpec(m: HybridModel, score: (string, string) -> real, prefs: Prefs, title: string)
    ensures title in MatchedOf(m, score, prefs)
        <==> (exists k :: 0 <= k < |prefs| && prefs[k].0 == title) && Resolved(m, score, title).Some?
    ensures title in MatchedOf(m, score, prefs) ==> MatchedOf(m, score, prefs)[title] == Resolved(m, score, title).value
    decreases |prefs|
  {
    if prefs != [] {
      var n := |prefs| - 1;
      var init := prefs[..n];
      MatchedOfSpec(m, score, init, title);
      assert forall k :: 0 <= k < n ==> init[k] == prefs[k];
      if title in MatchedOf(m, score, init) {
        var k :| 0 <= k < n && init[k].0 == title;
        assert prefs[k].0 == title;
      }
    }
  }

  /** The values of `matched_titles` are exactly the resolved titles of the inputs. */
  lemma MatchedValues(m: HybridModel, score: (string, string) -> real, prefs: Prefs, t: string)
    ensures t in MatchedOf(m, score, prefs).Values
        <==> exists k :: 0 <= k < |prefs| && Resolved(m, score, prefs[k].0) == Some(t)
  {
    var mt := MatchedOf(m, score, prefs);
    if t in mt.Values {
      var title :| title in mt && mt[title] == t;
      MatchedOfSpec(m, score, prefs, title);
    }
    if exists k :: 0 <= k < |prefs| && Resolved(m, score, prefs[k].0) == Some(t) {
      var k :| 0 <= k < |prefs| && Resolved(m, score, prefs[k].0) == Some(t);
      MatchedOfSpec(m, score, prefs, prefs[k].0);
      assert mt[prefs[k].0] == t;
    }
  }

  /** `np.count_nonzero(user_profile) == 0`. */
  predicate AllZero(p: seq<real>)
  {
    forall j :: 0 <= j < |p| ==> p[j] == 0.0
  }

  /** When no input resolves to a movie of the mapper the profile stays all zero. */
  lemma ProfileZeroWithoutTargets(m: HybridModel, score: (string, string) -> real, prefs: Prefs)
    requires Valid(m)
    requires forall k :: 0 <= k < |prefs| ==> Target(m, score, prefs[k].0).None?
    ensures AllZero(ProfileOf(m, score, prefs))
  {
    forall j | 0 <= j < m.matrix.nCols ensures ProfileOf(m, score, prefs)[j] == 0.0 {
      ProfileUntouched(m, score, prefs, j);
    }
  }

  /** Lines 102-113: a zero profile of one entry per movie column, written in
      place, and the `matched_titles` dict. */
  method BuildProfile(m: HybridModel, score: (string, string) -> real, prefs: Prefs)
    returns (profile: array<real>, matched: map<string, string>)
    requires Valid(m)
    ensures fresh(profile)
    ensures profile.Length == m.matrix.nCols
    ensures profile[..] == ProfileOf(m, score, prefs)
    ensures matched == MatchedOf(m, score, prefs)
  {
    profile := new real[m.matrix.nCols](_ => 0.0);
    matched := map[];
    assert prefs[..0] == [];
    for i := 0 to |prefs|
      invariant profile.Length == m.matrix.nCols
      invariant profile[..] == ProfileOf(m, score, prefs[..i])
      invariant matched == MatchedOf(m, score, prefs[..i])
    {
      assert prefs[..i + 1][..i] == prefs[..i];
      ghost var w := Writes(m, score, prefs[..i + 1]);
      assert w[..i] == Writes(m, score, prefs[..i]);
      var (title, rating) := prefs[i];
      var matchedTitle := FindClosestTitle(m.movies, title, score);
      if matchedTitle.Some? && matchedTitle.value != "" {
        matched := matched[title := matchedTitle.value];
        var movieId := MovieIdOfTitle(m.movies, matchedTitle.value);
        if movieId in m.movieMapper {
          var movieIdx := m.movieMapper[movieId];
          profile[movieIdx] := rating;
        }
      }
    }
    assert prefs[..|prefs|] == prefs;
  }

  // ---------------------------------------------------------------------------
  // Collaborative candidates
  // ---------------------------------------------------------------------------

  /** `{v: k for k, v in self.movie_mapper.items()}`. */
  function Invert(mm: map<int, nat>): (inv: map<nat, int>)
    requires forall a, b | a in mm && b in mm && a != b :: mm[a] != mm[b]
    ensures forall idx :: idx in inv <==> idx in mm.Values
    ensures forall idx :: idx in inv ==> inv[idx] in mm && mm[inv[idx]] == idx
  {
    map id | id in mm :: mm[id] := id
  }

  /** The titles a recommendation may not contain: the input keys and the
      values of `matched_titles`. */
  function Excluded(prefs: Prefs, matched: map<string, string>): (ex: set<string>)
    ensures forall k :: 0 <= k < |prefs| ==> prefs[k].0 in ex
    ensures matched.Values <= ex
    ensures forall t :: t in ex ==> t in matched.Values || exists k :: 0 <= k < |prefs| && prefs[k].0 == t
  {
    (set p | p in prefs :: p.0) + matched.Values
  }

  /** Lines 126-133 for one search index: its id through the inverted mapper
      (skipped when absent or falsy), the first catalog row with that id
      (skipped when there is none), and its title unless excluded. */
  function CandidateTitle(m: HybridModel, idx: int, exclude: set<string>): (r: Option<string>)
    requires Valid(m)
    ensures r.Some? ==> r.value !in exclude && exists i :: 0 <= i < |m.movies| && m.movies[i].title == r.value
  {
    var inv := Invert(m.movieMapper);
    if idx < 0 || idx !in inv then None
    else
      var movieId := inv[idx];
      if movieId == 0 then None
      else match FirstWhere(m.movies, HasId(movieId))
        case None => None
        case Some(i) => if m.movies[i].title in exclude then None else Some(m.movies[i].title)
  }

  /** `collab_movies` after the index loop has visited `indices`. */
  function CollabOf(m: HybridModel, indices: seq<int>, exclude: set<string>): (c: seq<string>)
    requires Valid(m)
    ensures |c| <= |indices|
    ensures forall i :: 0 <= i < |c| ==> c[i] !in exclude
    decreases |indices|
  {
    if indices == [] then []
    else
      var c := CandidateTitle(m, indices[|indices| - 1], exclude);
      CollabOf(m, indices[..|indices| - 1], exclude) + (if c.Some? then [c.value] else [])
  }

  /** A candidate comes from an index of the search that the movie mapper
      assigned, whose movie id is non-zero; it is the title of the first
      catalog row with that id and is not excluded. */
  lemma CandidateTitleSpec(m: HybridModel, idx: int, exclude: set<string>)
    requires Valid(m)
    ensures CandidateTitle(m, idx, exclude).Some? ==>
      && 0 <= idx < m.matrix.nCols
      && (exists id :: id in m.movieMapper && m.movieMapper[id] == idx && id != 0
            && exists i :: 0 <= i < |m.movies| && m.movies[i].movieId == id
                 && m.movies[i].title == CandidateTitle(m, idx, exclude).value
                 && forall j :: 0 <= j < i ==> m.movies[j].movieId != id)
      && CandidateTitle(m, idx, exclude).value !in exclude
  {
    var inv := Invert(m.movieMapper);
    if CandidateTitle(m, idx, exclude).Some? {
      var id := inv[idx];
      assert m.movieMapper[id] == idx;
      var i := FirstWhere(m.movies, HasId(id)).value;
      assert HasId(id)(m.movies[i]);
      assert forall j :: 0 <= j < i ==> !HasId(id)(m.movies[j]);
    }
  }

  /** Conversely, the index the movie mapper gives a non-zero id yields the
      title of the first catalog row with that id, unless it is excluded. */
  lemma CandidateTitleComplete(m: HybridModel, id: int, exclude: set<string>, i: nat)
    requires Valid(m)
    requires id in m.movieMapper && id != 0
    requires i < |m.movies| && m.movies[i].movieId == id
    requires forall j :: 0 <= j < i ==> m.movies[j].movieId != id
    requires m.movies[i].title !in exclude
    ensures CandidateTitle(m, m.movieMapper[id], exclude) == Some(m.movies[i].title)
  {
    var inv := Invert(m.movieMapper);
    var idx := m.movieMapper[id];
    assert idx in m.movieMapper.Values;
    assert inv[idx] == id;
    assert HasId(id)(m.movies[i]);
  }

  /** Every collaborative candidate is the title of some search index's
      candidate, hence never excluded; there is at most one per index. */
  lemma {:induction false} CollabOfSpec(m: HybridModel, indices: seq<int>, exclude: set<string>, t: string)
    requires Valid(m)
    ensures t in CollabOf(m, indices, exclude) <==> exists k :: 0 <= k < |indices| && CandidateTitle(m, indices[k], exclude) == Some(t)
    ensures t in CollabOf(m, indices, exclude) ==> t !in exclude
    ensures |CollabOf(m, indices, exclude)| <= |indices|
    decreases |indices|
  {
    if indices != [] {
      var n := |indices| - 1;
      CollabOfSpec(m, indices[..n], exclude, t);
      assert forall k :: 0 <= k < n ==> indices[..n][k] == indices[k];
      CandidateTitleSpec(m, indices[n], exclude);
    }
  }

  /** Lines 115-133: no search and no candidate when the profile is all
      zero; otherwise the candidates of the indices the search returns for
      `k = top_n * 3`. */
  method CollabCandidates(m: HybridModel, profile: array<real>, search: (seq<real>, int) -> seq<int>,
                          exclude: set<string>, topN: nat)
    returns (collab: seq<string>)
    requires Valid(m)
    ensures AllZero(profile[..]) ==> collab == []
    ensures !AllZero(profile[..]) ==> collab == CollabOf(m, search(profile[..], topN * 3), exclude)
    ensures forall i :: 0 <= i < |collab| ==> collab[i] !in exclude
  {
    collab := [];
    if forall j | 0 <= j < profile.Length :: profile[j] == 0.0 {
      assert AllZero(profile[..]);
    } else {
      var indices := search(profile[..], topN * 3);
      var invMovieMapper := Invert(m.movieMapper);
      for i := 0 to |indices|
        invariant collab == CollabOf(m, indices[..i], exclude)
      {
        assert indices[..i + 1][..i] == indices[..i];
        var idx := indices[i];
        if idx >= 0 && idx in invMovieMapper {
          var movieId := invMovieMapper[idx];
          if movieId != 0 {
            var row := FirstWhere(m.movies, HasId(movieId));
            if row.Some? {
              var title := m.movies[row.value].title;
              if title !in exclude {
                collab := collab + [title];
              }
            }
          }
        }
      }
      assert indices[..|indices|] == indices;
      forall i | 0 <= i < |collab| ensures collab[i] !in exclude {
        CollabOfSpec(m, indices, exclude, collab[i]);
      }
    }
  }

  // ---------------------------------------------------------------------------
  // Merge and result
  // ---------------------------------------------------------------------------

  /** The titles `all_recommendations` collects: the content titles that are
      not excluded and the collaborative ones. */
  function Candidates(contentRecs: seq<string>, collab: seq<string>, exclude: set<string>): set<string>
  {
    (set t | t in contentRecs && t !in exclude) + (set t | t in collab)
  }

  /** Lines 138-150: the set of the non-excluded content titles and the
      collaborative titles, and `list(all_recommendations)[:top_n]`. Python
      leaves the iteration order of a set unspecified, so the enumeration
      picks an arbitrary element at each step. */
  method CombineRecommendations(contentRecs: seq<string>, collab: seq<string>, exclude: set<string>, topN: nat)
    returns (all: set<string>, final: seq<string>)
    ensures all == Candidates(contentRecs, collab, exclude)
    ensures |final| == if topN < |all| then topN else |all|
    ensures forall i, j :: 0 <= i < j < |final| ==> final[i] != final[j]
    ensures forall i :: 0 <= i < |final| ==> final[i] in all
  {
    all := {};
    for i := 0 to |contentRecs|
      invariant all == set t | t in contentRecs[..i] && t !in exclude
    {
      assert contentRecs[..i + 1] == contentRecs[..i] + [contentRecs[i]];
      if contentRecs[i] !in exclude {
        all := all + {contentRecs[i]};
      }
    }
    assert contentRecs[..|contentRecs|] == contentRecs;
    ghost var fromContent := all;
    for i := 0 to |collab|
      invariant all == fromContent + set t | t in collab[..i]
    {
      assert collab[..i + 1] == collab[..i] + [collab[i]];
      all := all + {collab[i]};
    }
    assert collab[..|collab|] == collab;
    var order := EnumerateSet(all);
    final := Take(order, topN);
  }

  /** `list(s)`: every element once, in an order the model leaves open. */
  method EnumerateSet(s: set<string>) returns (order: seq<string>)
    ensures forall t :: t in order <==> t in s
    ensures forall i, j :: 0 <= i < j < |order| ==> order[i] != order[j]
    ensures |order| == |s|
  {
    order := [];
    var rest := s;
    while rest != {}
      invariant rest <= s
      invariant forall t :: t in order <==> t in s && t !in rest
      invariant forall i, j :: 0 <= i < j < |order| ==> order[i] != order[j]
      invariant |order| + |rest| == |s|
      decreases |rest|
    {
      var t :| t in rest;
      order := order + [t];
      rest := rest - {t};
    }
  }

  function TitleIn(final: seq<string>): Movie -> bool { (mv: Movie) => mv.title in final }

  /** `frame[['title', 'genres']]`. */
  function Project(movies: seq<Movie>): (rows: seq<Row>)
    ensures |rows| == |movies|
    ensures forall i :: 0 <= i < |movies| ==> rows[i] == Row(movies[i].title, movies[i].genres)
    decreases |movies|
  {
    if movies == [] then [] else [Row(movies[0].title, movies[0].genres)] + Project(movies[1..])
  }

  /** Lines 154-158. */
  function ResultFrame(movies: seq<Movie>, final: seq<string>, topN: nat): (rows: seq<Row>)
    ensures |rows| <= topN
    ensures final == [] ==> rows == []
    ensures final != [] ==>
      |rows| == var n := |Filter(movies, TitleIn(final))|; if topN < n then topN else n
    ensures forall i :: 0 <= i < |rows| ==> rows[i].title in final
  {
    if final != [] then Project(Take(Filter(movies, TitleIn(final)), topN)) else []
  }

  lemma {:induction false} ProjectSubseq(a: seq<Movie>, b: seq<Movie>)
    requires IsSubseq(a, b)
    ensures IsSubseq(Project(a), Project(b))
    decreases |b|
  {
    if a != [] {
      assert Project(b)[1..] == Project(b[1..]);
      assert Project(a)[1..] == Project(a[1..]);
      if a[0] == b[0] && IsSubseq(a[1..], b[1..]) {
        ProjectSubseq(a[1..], b[1..]);
      } else {
        ProjectSubseq(a, b[1..]);
      }
    }
  }

  /** The frame lists catalog rows in catalog order; when at most `top_n`
      catalog rows carry a final title, it lists all of them. */
  lemma ResultFrameRows(movies: seq<Movie>, final: seq<string>, topN: nat)
    ensures IsSubseq(ResultFrame(movies, final, topN), Project(movies))
    ensures |Filter(movies, TitleIn(final))| <= topN ==>
      forall i :: 0 <= i < |movies| && movies[i].title in final ==>
        Row(movies[i].title, movies[i].genres) in ResultFrame(movies, final, topN)
  {
    var sel := Filter(movies, TitleIn(final));
    FilterIsSubseq(movies, TitleIn(final));
    PrefixIsSubseq(sel, movies, |Take(sel, topN)|);
    ProjectSubseq(Take(sel, topN), movies);
    if |sel| <= topN {
      forall i | 0 <= i < |movies| && movies[i].title in final
        ensures Row(movies[i].title, movies[i].genres) in ResultFrame(movies, final, topN)
      {
        FilterMember(movies, TitleIn(final), movies[i]);
        var k :| 0 <= k < |sel| && sel[k] == movies[i];
        assert Project(sel)[k] == Row(movies[i].title, movies[i].genres);
      }
    }
  }

  // ---------------------------------------------------------------------------
  // hybrid_recommend
  // ---------------------------------------------------------------------------

  /** `collab_movies` for the inputs `prefs`: none when the profile is all
      zero, otherwise the candidates of the search for `top_n * 3` indices. */
  function CollabFor(m: HybridModel, score: (string, string) -> real, prefs: Prefs,
                     search: (seq<real>, int) -> seq<int>, topN: nat): (c: seq<string>)
    requires Valid(m)
    ensures forall i :: 0 <= i < |c| ==> c[i] !in Excluded(prefs, MatchedOf(m, score, prefs))
    ensures AllZero(ProfileOf(m, score, prefs)) ==> c == []
  {
    var p := ProfileOf(m, score, prefs);
    if AllZero(p) then [] else CollabOf(m, search(p, topN * 3), Excluded(prefs, MatchedOf(m, score, prefs)))
  }

  /** `hybrid_recommend(user_ratings, content_weight, top_n)`; `content_weight`
      is never read by the source and is not a parameter here. `final` is
      `final_recommendations`. */
  method HybridRecommend(m: HybridModel, prefs: Prefs, contentRecs: seq<string>,
                         score: (string, string) -> real, search: (seq<real>, int) -> seq<int>, topN: nat)
    returns (rows: seq<Row>, final: seq<string>)
    requires Valid(m)
    ensures forall i, j :: 0 <= i < j < |final| ==> final[i] != final[j]
    ensures var all := Candidates(contentRecs, CollabFor(m, score, prefs, search, topN), Excluded(prefs, MatchedOf(m, score, prefs)));
      && |final| == (if topN < |all| then topN else |all|)
      && forall i :: 0 <= i < |final| ==> final[i] in all
    ensures rows == ResultFrame(m.movies, final, topN)
    ensures |rows| <= topN
    ensures IsSubseq(rows, Project(m.movies))
    ensures forall i :: 0 <= i < |rows| ==> rows[i].title !in Excluded(prefs, MatchedOf(m, score, prefs))
    ensures AllZero(ProfileOf(m, score, prefs)) ==> forall i :: 0 <= i < |rows| ==> rows[i].title in contentRecs
    ensures forall i :: 0 <= i < |rows| ==>
      rows[i].title in contentRecs
      || rows[i].title in CollabOf(m, search(ProfileOf(m, score, prefs), topN * 3), Excluded(prefs, MatchedOf(m, score, prefs)))
  {
    var profile, matched := BuildProfile(m, score, prefs);
    var exclude := Excluded(prefs, matched);
    var collab := CollabCandidates(m, profile, search, exclude, topN);
    assert collab == CollabFor(m, score, prefs, search, topN);
    var all;
    all, final := CombineRecommendations(contentRecs, collab, exclude, topN);
    rows := ResultFrame(m.movies, final, topN);
    ResultFrameRows(m.movies, final, topN);
    forall i | 0 <= i < |rows| ensures rows[i].title in all && rows[i].title !in exclude {
      assert rows[i].title in final;
    }
  }
}
