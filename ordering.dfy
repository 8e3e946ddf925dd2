/** `orderByYear` and `orderAlphabetically`. */
module Ordering {
  import opened StringOrder
  import opened MovieRecord

  /**
   * `orderByYear`'s comparator: the difference of the years, or, for equal
   * years, the `localeCompare` of the titles. Negative puts `a` first.
   */
  function CompareByYear(a: Movie, b: Movie): int {
    if a.year == b.year then LocaleCompare(a.title, b.title) else a.year - b.year
  }

  /** `a` may precede `b` in the output of `orderByYear`. */
  predicate YearTitleLe(a: Movie, b: Movie) {
    CompareByYear(a, b) <= 0
  }

  /** The comparator orders by year, then by title. */
  lemma YearTitleLeMeaning(a: Movie, b: Movie)
    ensures YearTitleLe(a, b) <==> a.year < b.year || (a.year == b.year && LessEq(a.title, b.title))
  {
  }

  lemma YearTitleLeTotal(a: Movie, b: Movie)
    ensures YearTitleLe(a, b) || YearTitleLe(b, a)
  {
    LessTrichotomy(a.title, b.title);
  }

  lemma YearTitleLeTransitive(a: Movie, b: Movie, c: Movie)
    requires YearTitleLe(a, b) && YearTitleLe(b, c)
    ensures YearTitleLe(a, c)
  {
    if a.year == b.year == c.year {
      LessEqTransitive(a.title, b.title, c.title);
    }
  }

  predicate SortedByYear(s: seq<Movie>) {
    forall i, j :: 0 <= i < j < |s| ==> YearTitleLe(s[i], s[j])
  }

  /**
   * The state of an insertion step that is moving the element at `j` down
   * into the sorted prefix `s[..i]`: apart from position `j`, `s[..i + 1]` is
   * sorted, and the element at `j` precedes everything after it.
   */
  predicate Inserting(s: seq<Movie>, i: nat, j: nat) {
    && j <= i < |s|
    && (forall k, l :: 0 <= k < l <= i && k != j && l != j ==> YearTitleLe(s[k], s[l]))
    && (forall l :: j < l <= i ==> YearTitleLe(s[j], s[l]))
  }

  lemma InsertingStart(s: seq<Movie>, i: nat)
    requires i < |s| && SortedByYear(s[..i])
    ensures Inserting(s, i, i)
  {
    forall k, l | 0 <= k < l < i
      ensures YearTitleLe(s[k], s[l])
    {
      assert s[..i][k] == s[k] && s[..i][l] == s[l];
    }
  }

  /** Swapping the element at `j` with a predecessor that must follow it moves it one place down. */
  lemma InsertingSwap(s: seq<Movie>, i: nat, j: nat)
    requires Inserting(s, i, j) && 0 < j && !YearTitleLe(s[j - 1], s[j])
    ensures Inserting(s[j - 1 := s[j]][j := s[j - 1]], i, j - 1)
    ensures multiset(s[j - 1 := s[j]][j := s[j - 1]]) == multiset(s)
  {
    YearTitleLeTotal(s[j - 1], s[j]);
    var t := s[j - 1 := s[j]][j := s[j - 1]];
    forall l | j - 1 < l <= i
      ensures YearTitleLe(t[j - 1], t[l])
    {
      if l == j {
        assert YearTitleLe(s[j], s[j - 1]);
      }
    }
  }

  /** Once the element at `j` may follow its predecessor, `s[..i + 1]` is sorted. */
  lemma InsertingDone(s: seq<Movie>, i: nat, j: nat)
    requires Inserting(s, i, j) && (j == 0 || YearTitleLe(s[j - 1], s[j]))
    ensures SortedByYear(s[..i + 1])
  {
    forall k, l | 0 <= k < l <= i
      ensures YearTitleLe(s[k], s[l])
    {
      if l == j && k < j - 1 {
        YearTitleLeTransitive(s[k], s[j - 1], s[j]);
      }
    }
  }

  /** One pass of the insertion sort: moves `a[i]` down into the sorted prefix `a[..i]`. */
  method InsertIntoPrefix(a: array<Movie>, i: nat)
    requires i < a.Length && SortedByYear(a[..i])
    modifies a
    ensures SortedByYear(a[..i + 1])
    ensures multiset(a[..]) == multiset(old(a[..]))
    ensures a[i + 1..] == old(a[i + 1..])
  {
    InsertingStart(a[..], i);
    var j: nat := i;
    while j > 0 && !YearTitleLe(a[j - 1], a[j])
      invariant Inserting(a[..], i, j)
      invariant multiset(a[..]) == multiset(old(a[..]))
      invariant a[i + 1..] == old(a[i + 1..])
    {
      ghost var s := a[..];
      InsertingSwap(s, i, j);
      a[j - 1], a[j] := a[j], a[j - 1];
      assert a[..] == s[j - 1 := s[j]][j := s[j - 1]];
      j := j - 1;
    }
    InsertingDone(a[..], i, j);
    assert a[..][..i + 1] == a[..i + 1];
  }

  /**
   * `Array.prototype.sort` with `orderByYear`'s comparator, done as an
   * insertion sort: the array ends up ordered and holds the same movies.
   */
  method SortByYear(a: array<Movie>)
    modifies a
    ensures SortedByYear(a[..])
    ensures multiset(a[..]) == multiset(old(a[..]))
  {
    for i := 0 to a.Length
      invariant SortedByYear(a[..i])
      invariant multiset(a[..]) == multiset(old(a[..]))
    {
      InsertIntoPrefix(a, i);
    }
    assert a[..a.Length] == a[..];
  }

  /** `orderByYear`: a sorted copy of the list; the input is a value and stays as it was. */
  method OrderByYear(movies: seq<Movie>) returns (r: seq<Movie>)
    ensures SortedByYear(r)
    ensures multiset(r) == multiset(movies)
  {
    var a := new Movie[|movies|](i requires 0 <= i < |movies| => movies[i]);
    assert a[..] == movies;
    SortByYear(a);
    r := a[..];
  }

  /** How many titles `orderAlphabetically` keeps. */
  const MaxTitles := 20

  predicate SortedTitles(s: seq<string>) {
    forall i, j :: 0 <= i < j < |s| ==> LessEq(s[i], s[j])
  }

  /** The titles of the movies, in list order (`movies.map(movie => movie.title)`). */
  function Titles(movies: seq<Movie>): (r: seq<string>)
    ensures |r| == |movies|
    ensures forall i :: 0 <= i < |movies| ==> r[i] == movies[i].title
  {
    seq(|movies|, i requires 0 <= i < |movies| => movies[i].title)
  }

  /** `t` put into the sorted list `s` before the first title it does not follow. */
  function InsertTitle(t: string, s: seq<string>): (r: seq<string>)
    requires SortedTitles(s)
    ensures SortedTitles(r)
    ensures multiset(r) == multiset(s) + multiset{t}
  {
    if s == [] then [t]
    else if LessEq(t, s[0]) then
      assert forall j :: 0 < j < |s| ==> LessEq(t, s[j]) by {
        forall j | 0 < j < |s| ensures LessEq(t, s[j]) {
          LessEqTransitive(t, s[0], s[j]);
        }
      }
      [t] + s
    else
      var rest := InsertTitle(t, s[1..]);
      LessEqTotal(t, s[0]);
      assert s == [s[0]] + s[1..];
      assert forall j :: 0 <= j < |rest| ==> LessEq(s[0], rest[j]) by {
        forall j | 0 <= j < |rest| ensures LessEq(s[0], rest[j]) {
          assert rest[j] in multiset(rest);
          assert rest[j] == t || rest[j] in s[1..];
        }
      }
      [s[0]] + rest
  }

  /** The titles sorted with `localeCompare`, as an insertion sort. */
  function SortTitles(s: seq<string>): (r: seq<string>)
    ensures SortedTitles(r)
    ensures multiset(r) == multiset(s)
  {
    if s == [] then []
    else
      assert s == [s[0]] + s[1..];
      InsertTitle(s[0], SortTitles(s[1..]))
  }

  /** The head of a sorted list sorts before or with every title in it. */
  lemma SortedHeadIsLeast(s: seq<string>, t: string)
    requires SortedTitles(s) && t in multiset(s)
    ensures LessEq(s[0], t)
  {
    var i :| 0 <= i < |s| && s[i] == t;
  }

  /**
   * Two sorted arrangements of the same titles are equal: how the sort is
   * carried out does not matter.
   */
  lemma {:induction false} SortedTitlesUnique(a: seq<string>, b: seq<string>)
    requires SortedTitles(a) && SortedTitles(b)
    requires multiset(a) == multiset(b)
    ensures a == b
    decreases |a|
  {
    assert |a| == |multiset(a)| == |multiset(b)| == |b|;
    if a != [] {
      SortedHeadIsLeast(a, b[0]);
      SortedHeadIsLeast(b, a[0]);
      LessEqAntisymmetric(a[0], b[0]);
      SortedTail(a);
      SortedTail(b);
      SortedTitlesUnique(a[1..], b[1..]);
      assert a == [a[0]] + a[1..] && b == [b[0]] + b[1..];
    }
  }

  /** Without its head, a sorted list is still sorted and holds the other titles. */
  lemma SortedTail(s: seq<string>)
    requires SortedTitles(s) && s != []
    ensures SortedTitles(s[1..])
    ensures multiset(s[1..]) == multiset(s) - multiset{s[0]}
  {
    assert s == [s[0]] + s[1..];
  }

  /** `orderAlphabetically`: the first `MaxTitles` titles of the sorted title list. */
  function OrderAlphabetically(movies: seq<Movie>): (r: seq<string>)
    ensures |r| == if |movies| < MaxTitles then |movies| else MaxTitles
    ensures SortedTitles(r)
    ensures multiset(r) <= multiset(Titles(movies))
  {
    var sorted := SortTitles(Titles(movies));
    var r := sorted[..if |sorted| < MaxTitles then |sorted| else MaxTitles];
    assert sorted == r + sorted[|r|..];
    r
  }

  /** Cut a sorted list anywhere: every title of the front sorts before or with every title of the back. */
  lemma SortedSplit(sorted: seq<string>, n: nat)
    requires SortedTitles(sorted) && n <= |sorted|
    ensures multiset(sorted) - multiset(sorted[..n]) == multiset(sorted[n..])
    ensures forall i, t :: 0 <= i < n && t in multiset(sorted[n..]) ==> LessEq(sorted[i], t)
  {
    assert sorted == sorted[..n] + sorted[n..];
    forall i, t | 0 <= i < n && t in multiset(sorted[n..])
      ensures LessEq(sorted[i], t)
    {
      var j :| n <= j < |sorted| && sorted[j] == t;
    }
  }

  /**
   * The kept titles are the smallest ones: every title left out sorts after
   * (or equals) every title kept, and the kept titles start the full sorted list.
   */
  lemma OrderAlphabeticallyKeepsSmallest(movies: seq<Movie>)
    ensures var r := OrderAlphabetically(movies);
      && r == SortTitles(Titles(movies))[..|r|]
      && forall i, t :: 0 <= i < |r| && t in multiset(Titles(movies)) - multiset(r) ==> LessEq(r[i], t)
  {
    var sorted := SortTitles(Titles(movies));
    var r := OrderAlphabetically(movies);
    SortedSplit(sorted, |r|);
  }
}
