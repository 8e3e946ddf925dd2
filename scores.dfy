/** `howManyMovies`, `scoresAverage` and `dramaMoviesScore`. */
module Scores {
  import opened Wrappers
  import opened MovieRecord

  /** The filter of `howManyMovies`: directed by exactly "Steven Spielberg" and a drama. */
  predicate IsSpielbergDrama(m: Movie) {
    m.director == "Steven Spielberg" && IsDrama(m)
  }

  /** `howManyMovies`: the number of Spielberg dramas. */
  function HowManyMovies(movies: seq<Movie>): (r: nat)
    ensures r <= |movies|
  {
    |Filter(movies, IsSpielbergDrama)|
  }

  /** The positions of the Spielberg dramas in `movies`. */
  function SpielbergDramaIndices(movies: seq<Movie>): set<int> {
    set i | 0 <= i < |movies| && IsSpielbergDrama(movies[i])
  }

  /** `howManyMovies` is the number of positions that hold a Spielberg drama. */
  lemma {:induction false} HowManyMoviesCountsPositions(movies: seq<Movie>)
    ensures HowManyMovies(movies) == |SpielbergDramaIndices(movies)|
    decreases |movies|
  {
    if movies != [] {
      var n := |movies| - 1;
      var prefix := movies[..n];
      HowManyMoviesCountsPositions(prefix);
      var before := SpielbergDramaIndices(prefix);
      var last := if IsSpielbergDrama(movies[n]) then {n} else {};
      assert SpielbergDramaIndices(movies) == before + last by {
        forall i | 0 <= i < n
          ensures i in SpielbergDramaIndices(movies) <==> i in before
        {
          assert prefix[i] == movies[i];
        }
      }
      assert n !in before;
      assert Filter(movies, IsSpielbergDrama) == Filter(prefix, IsSpielbergDrama) + (if IsSpielbergDrama(movies[n]) then [movies[n]] else []);
      assert HowManyMovies(movies) == HowManyMovies(prefix) + |last|;
    }
  }

  /** `movie.score || 0`: a missing score counts as 0. */
  function ScoreOrZero(m: Movie): real {
    m.score.GetOr(0.0)
  }

  /** The sum of `reduce((acc, movie) => acc + (movie.score || 0), 0)`. */
  function TotalScore(movies: seq<Movie>): real
    decreases |movies|
  {
    if movies == [] then 0.0
    else TotalScore(movies[..|movies| - 1]) + ScoreOrZero(movies[|movies| - 1])
  }

  /** The total depends only on the counted score of each record. */
  lemma {:induction false} TotalScoreOfSameScores(a: seq<Movie>, b: seq<Movie>)
    requires |a| == |b|
    requires forall i :: 0 <= i < |a| ==> ScoreOrZero(a[i]) == ScoreOrZero(b[i])
    ensures TotalScore(a) == TotalScore(b)
    decreases |a|
  {
    if a != [] {
      TotalScoreOfSameScores(a[..|a| - 1], b[..|b| - 1]);
    }
  }

  /** `scoresAverage`: the mean score, 0 for an empty list (before the rounding to two decimals). */
  function ScoresAverage(movies: seq<Movie>): (r: real)
    ensures movies == [] ==> r == 0.0
    ensures movies != [] ==> r * |movies| as real == TotalScore(movies)
  {
    if movies == [] then 0.0 else TotalScore(movies) / |movies| as real
  }

  lemma {:induction false} TotalScoreBounds(movies: seq<Movie>, lo: real, hi: real)
    requires forall i :: 0 <= i < |movies| ==> lo <= ScoreOrZero(movies[i]) <= hi
    ensures |movies| as real * lo <= TotalScore(movies) <= |movies| as real * hi
    decreases |movies|
  {
    if movies != [] {
      TotalScoreBounds(movies[..|movies| - 1], lo, hi);
    }
  }

  /** The mean lies between the smallest and the largest score counted. */
  lemma ScoresAverageBounds(movies: seq<Movie>, lo: real, hi: real)
    requires movies != []
    requires forall i :: 0 <= i < |movies| ==> lo <= ScoreOrZero(movies[i]) <= hi
    ensures lo <= ScoresAverage(movies) <= hi
  {
    TotalScoreBounds(movies, lo, hi);
    var n := |movies| as real;
    var r := ScoresAverage(movies);
    assert r * n == TotalScore(movies);
  }

  /** A record without a score weighs in `scoresAverage` exactly like one scored 0. */
  lemma MissingScoreCountsAsZero(movies: seq<Movie>, i: nat)
    requires i < |movies| && movies[i].score.None?
    ensures ScoresAverage(movies[i := movies[i].(score := Some(0.0))]) == ScoresAverage(movies)
  {
    TotalScoreOfSameScores(movies[i := movies[i].(score := Some(0.0))], movies);
  }

  /** `dramaMoviesScore`: `scoresAverage` of the dramas, in their original order. */
  function DramaMoviesScore(movies: seq<Movie>): (r: real)
    ensures (forall m :: m in movies ==> !IsDrama(m)) ==> r == 0.0
  {
    ScoresAverage(Filter(movies, IsDrama))
  }

  /** Adding a movie that is not a drama leaves `dramaMoviesScore` as it was. */
  lemma DramaMoviesScoreIgnoresOthers(movies: seq<Movie>, m: Movie)
    requires !IsDrama(m)
    ensures DramaMoviesScore(movies + [m]) == DramaMoviesScore(movies)
    ensures DramaMoviesScore([m] + movies) == DramaMoviesScore(movies)
  {
    assert [m][..0] == [];
    assert Filter([m], IsDrama) == [];
    FilterAppend(movies, [m], IsDrama);
    assert Filter(movies + [m], IsDrama) == Filter(movies, IsDrama);
    FilterAppend([m], movies, IsDrama);
    assert Filter([m] + movies, IsDrama) == Filter(movies, IsDrama);
  }

  /** `scoresAverage` of two scores 8 and 6 is 7. */
  lemma ScoresAverageExample(a: Movie, b: Movie)
    requires a.score == Some(8.0) && b.score == Some(6.0)
    ensures ScoresAverage([a, b]) == 7.0
  {
    assert [a, b][..1] == [a];
    assert [a][..0] == [];
    assert ScoreOrZero(a) == 8.0 && ScoreOrZero(b) == 6.0;
    assert TotalScore([a]) == 8.0;
    assert TotalScore([a, b]) == 14.0;
  }
}
