/** `HybridModel.find_closest_title` (src/train.py): the best catalog title
    for a user-typed title, if one scores at least the cutoff. The string
    similarity itself (difflib's `SequenceMatcher.ratio`) is a parameter. */
module TitleMatch {
  import opened Seqs
  import opened Indexing

  /** The `cutoff` passed to `difflib.get_close_matches`. */
  const Cutoff: real := 0.6

  /** `self.movies['title'].tolist()`. */
  function Titles(movies: seq<Movie>): (ts: seq<string>)
    ensures |ts| == |movies| && forall i :: 0 <= i < |movies| ==> ts[i] == movies[i].title
  {
    seq(|movies|, i requires 0 <= i < |movies| => movies[i].title)
  }

  /** The order of the `(score, title)` pairs from which `get_close_matches`
      takes the largest: a higher score wins, and between equal scores the
      larger string (Python's tuple comparison). */
  predicate Outranks(s1: real, t1: string, s2: real, t2: string)
  {
    s1 > s2 || (s1 == s2 && StrLess(t2, t1))
  }

  /** `get_close_matches(input, titles, n=1, cutoff=0.6)`, first match or None. */
  function BestMatch(input: string, titles: seq<string>, score: (string, string) -> real): (r: Option<string>)
    ensures r.None? <==> forall i :: 0 <= i < |titles| ==> score(input, titles[i]) < Cutoff
    ensures r.Some? ==> r.value in titles && score(input, r.value) >= Cutoff
    ensures r.Some? ==> forall i :: 0 <= i < |titles| && score(input, titles[i]) >= Cutoff ==>
              !Outranks(score(input, titles[i]), titles[i], score(input, r.value), r.value)
    decreases |titles|
  {
    if titles == [] then None
    else
      var rest := BestMatch(input, titles[1..], score);
      var t := titles[0];
      var s := score(input, t);
      assert forall i :: 1 <= i < |titles| ==> titles[i] == titles[1..][i - 1];
      StrLessIsStrictTotalOrder();
      if s < Cutoff then rest
      else if rest.None? then Some(t)
      else if Outranks(score(input, rest.value), rest.value, s, t) then rest
      else Some(t)
  }

  function FindClosestTitle(movies: seq<Movie>, input: string, score: (string, string) -> real): (r: Option<string>)
    ensures r.None? <==> forall i :: 0 <= i < |movies| ==> score(input, movies[i].title) < Cutoff
    ensures r.Some? ==> r.value in Titles(movies) && score(input, r.value) >= Cutoff
  {
    BestMatch(input, Titles(movies), score)
  }

  /** The result is None exactly when no title reaches the cutoff; otherwise
      it is a catalog title that reaches it and that no other title outranks. */
  lemma FindClosestTitleSpec(movies: seq<Movie>, input: string, score: (string, string) -> real)
    ensures var r := FindClosestTitle(movies, input, score);
      && (r.None? <==> forall i :: 0 <= i < |movies| ==> score(input, movies[i].title) < Cutoff)
      && (r.Some? ==> exists i :: 0 <= i < |movies| && movies[i].title == r.value)
      && (r.Some? ==> score(input, r.value) >= Cutoff)
      && (r.Some? ==> forall i :: 0 <= i < |movies| && score(input, movies[i].title) >= Cutoff ==>
            !Outranks(score(input, movies[i].title), movies[i].title, score(input, r.value), r.value))
  {
    var ts := Titles(movies);
    var r := FindClosestTitle(movies, input, score);
    if r.Some? {
      var i :| 0 <= i < |ts| && ts[i] == r.value;
      assert movies[i].title == r.value;
    }
  }

  /** Resolving a catalog title that scores itself strictly above every other
      title (as `ratio` does, 1.0 only for equal strings) returns it unchanged. */
  lemma FindClosestTitleCanonical(movies: seq<Movie>, title: string, score: (string, string) -> real)
    requires exists i :: 0 <= i < |movies| && movies[i].title == title
    requires score(title, title) >= Cutoff
    requires forall i :: 0 <= i < |movies| && movies[i].title != title ==> score(title, movies[i].title) < score(title, title)
    ensures FindClosestTitle(movies, title, score) == Some(title)
  {
    var ts := Titles(movies);
    var r := BestMatch(title, ts, score);
    var i :| 0 <= i < |movies| && movies[i].title == title;
    assert ts[i] == title;
    var k :| 0 <= k < |ts| && ts[k] == r.value;
    assert movies[k].title == r.value;
  }
}
