/** The movie record every operation of the library reads. */
module MovieRecord {
  import opened Wrappers

  /**
   * A movie's running time: the source text, such as "2h 22min", or, after
   * conversion, the total number of minutes.
   */
  datatype Duration = Text(text: string) | Minutes(total: nat)

  /** A record of the input list. `score` is absent for some records. */
  datatype Movie = Movie(
    title: string,
    year: int,
    director: string,
    duration: Duration,
    genre: seq<string>,
    score: Option<real>)

  /** The genre test both drama queries use: the genre list includes "Drama". */
  predicate IsDrama(m: Movie) {
    "Drama" in m.genre
  }

  /** The records of `s` that satisfy `p`, in their original order (`Array.prototype.filter`). */
  function Filter(s: seq<Movie>, p: Movie -> bool): (r: seq<Movie>)
    ensures |r| <= |s|
    ensures forall i :: 0 <= i < |r| ==> r[i] in s && p(r[i])
    ensures forall i :: 0 <= i < |s| && p(s[i]) ==> s[i] in r
    decreases |s|
  {
    if s == [] then []
    else Filter(s[..|s| - 1], p) + (if p(s[|s| - 1]) then [s[|s| - 1]] else [])
  }

  /** Filtering a concatenation filters each part. */
  lemma {:induction false} FilterAppend(a: seq<Movie>, b: seq<Movie>, p: Movie -> bool)
    ensures Filter(a + b, p) == Filter(a, p) + Filter(b, p)
    decreases |b|
  {
    if b != [] {
      var b' := b[..|b| - 1];
      assert (a + b)[..|a + b| - 1] == a + b';
      FilterAppend(a, b', p);
    } else {
      assert a + b == a;
    }
  }
}
