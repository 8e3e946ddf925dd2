/** `getAllDirectors` and `getUniqueDirectors`. */
module Directors {
  import opened MovieRecord

  /** `getAllDirectors`: the director of every movie, in order, duplicates kept. */
  function GetAllDirectors(movies: seq<Movie>): (r: seq<string>)
    ensures |r| == |movies|
    ensures forall i :: 0 <= i < |movies| ==> r[i] == movies[i].director
  {
    seq(|movies|, i requires 0 <= i < |movies| => movies[i].director)
  }

  /** Projection commutes with concatenation. */
  lemma GetAllDirectorsAppend(a: seq<Movie>, b: seq<Movie>)
    ensures GetAllDirectors(a + b) == GetAllDirectors(a) + GetAllDirectors(b)
  {
  }

  predicate NoDuplicates<T(==)>(s: seq<T>) {
    forall i, j :: 0 <= i < j < |s| ==> s[i] != s[j]
  }

  /**
   * `[...new Set(s)]`: a `Set` built from `s` and spread back into an array.
   * Elements are added in order, and adding one already present does nothing,
   * so the result lists each value once, at the place it first appears.
   */
  function Dedup<T(==)>(s: seq<T>): (r: seq<T>)
    ensures NoDuplicates(r)
    ensures forall i :: 0 <= i < |r| ==> r[i] in s
    ensures forall i :: 0 <= i < |s| ==> s[i] in r
    ensures |r| <= |s|
    decreases |s|
  {
    if s == [] then []
    else
      var d := Dedup(s[..|s| - 1]);
      if s[|s| - 1] in d then d else d + [s[|s| - 1]]
  }

  /** The index of the first occurrence of `x` in `s`. */
  function FirstIndex<T(==)>(s: seq<T>, x: T): (i: nat)
    requires x in s
    ensures i < |s| && s[i] == x
    ensures forall j :: 0 <= j < i ==> s[j] != x
  {
    if s[0] == x then 0 else 1 + FirstIndex(s[1..], x)
  }

  lemma FirstIndexOfExtension<T>(s: seq<T>, y: T, x: T)
    requires x in s
    ensures FirstIndex(s + [y], x) == FirstIndex(s, x)
  {
    var i := FirstIndex(s, x);
    var k := FirstIndex(s + [y], x);
    assert (s + [y])[i] == x;
  }

  /** The elements of `Dedup(s)` appear in the order of their first occurrences in `s`. */
  lemma {:induction false} DedupKeepsFirstOccurrenceOrder<T>(s: seq<T>)
    ensures forall i, j :: 0 <= i < j < |Dedup(s)| ==>
      FirstIndex(s, Dedup(s)[i]) < FirstIndex(s, Dedup(s)[j])
    decreases |s|
  {
    if s != [] {
      var s', x := s[..|s| - 1], s[|s| - 1];
      var d := Dedup(s');
      DedupKeepsFirstOccurrenceOrder(s');
      assert s == s' + [x];
      forall y | y in d
        ensures FirstIndex(s, y) == FirstIndex(s', y)
      {
        FirstIndexOfExtension(s', x, y);
      }
      if x !in d {
        assert FirstIndex(s, x) == |s'|;
      }
    }
  }

  /** `getUniqueDirectors`: the directors of `getAllDirectors`, each once, in first-occurrence order. */
  function GetUniqueDirectors(movies: seq<Movie>): (r: seq<string>)
    ensures NoDuplicates(r)
    ensures forall d :: d in r <==> d in GetAllDirectors(movies)
  {
    Dedup(GetAllDirectors(movies))
  }
}
