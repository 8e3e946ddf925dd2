/**
 * `bestYearAvg`: the movies are tallied per year into a `{ sum, count }`
 * table keyed by the year's string, then the year with the highest average
 * is picked, equal averages going to the key that sorts first.
 */
module BestYear {
  import opened Wrappers
  import opened Decimal
  import opened StringOrder
  import opened MovieRecord
  import Directors
  import Scores

  /** The property name a year gets as a key of a plain object: its decimal string. */
  function YearKey(year: int): (k: string)
    ensures k != ""
  {
    if year < 0 then "-" + NatToDecimal(-year) else NatToDecimal(year)
  }

  /** Distinct years get distinct keys. */
  lemma YearKeyInjective(a: int, b: int)
    requires YearKey(a) == YearKey(b)
    ensures a == b
  {
    if a < 0 && b < 0 {
      assert YearKey(a)[1..] == NatToDecimal(-a) && YearKey(b)[1..] == NatToDecimal(-b);
      NatToDecimalInjective(-a, -b);
    } else if 0 <= a && 0 <= b {
      NatToDecimalInjective(a, b);
    }
  }

  /**
   * One entry of the table: `{ sum, count }`. `sum` is `None` once a movie
   * without a score has been added: `sum += undefined` makes it NaN for good.
   */
  datatype Tally = Tally(sum: Option<real>, count: nat)

  /** `sum += movie.score`. */
  function AddScore(sum: Option<real>, score: Option<real>): (r: Option<real>)
    ensures r.Some? <==> sum.Some? && score.Some?
    ensures r.Some? ==> r.value == sum.value + score.value
  {
    if sum.Some? && score.Some? then Some(sum.value + score.value) else None
  }

  /** The reducer: create the movie's entry if it is missing, then add its score and count it. */
  function Record(acc: map<string, Tally>, m: Movie): map<string, Tally> {
    var k := YearKey(m.year);
    var t := if k in acc then acc[k] else Tally(Some(0.0), 0);
    acc[k := Tally(AddScore(t.sum, m.score), t.count + 1)]
  }

  /** The table `reduce` builds from `movies`. */
  function TallyByYear(movies: seq<Movie>): map<string, Tally>
    decreases |movies|
  {
    if movies == [] then map[]
    else Record(TallyByYear(movies[..|movies| - 1]), movies[|movies| - 1])
  }

  /** `sum / count`; `None` when it is NaN. */
  function Average(t: Tally): Option<real> {
    if t.sum.Some? && t.count > 0 then Some(t.sum.value / t.count as real) else None
  }

  /** The `bestYear` and `bestAvg` the selection loop ends with. */
  datatype Best = Best(year: string, average: real)

  /**
   * One turn of the selection loop: `year` takes over when its average is
   * larger, or equal with a key that sorts first. A NaN average compares
   * false both ways and never takes over.
   */
  function Consider(b: Best, year: string, t: Tally): Best {
    var avg := Average(t);
    if avg.Some? && (avg.value > b.average || (avg.value == b.average && Less(year, b.year)))
    then Best(year, avg.value)
    else b
  }

  /**
   * `b` is what the selection loop yields on `table`, starting from `bestYear
   * = ''` and `bestAvg = 0`: either the year whose average is largest, with
   * ties to the key that sorts first, when that average is positive, or the
   * starting values when no average exceeds 0.
   */
  predicate IsBest(table: map<string, Tally>, b: Best) {
    if b.year == "" then
      && b.average == 0.0
      && forall k :: k in table && Average(table[k]).Some? ==> Average(table[k]).value <= 0.0
    else
      && b.year in table
      && Average(table[b.year]) == Some(b.average)
      && b.average > 0.0
      && forall k :: k in table && k != b.year && Average(table[k]).Some? ==>
           Average(table[k]).value < b.average
           || (Average(table[k]).value == b.average && Less(b.year, k))
  }

  /** Considering one more key keeps the running choice the best of the keys seen. */
  lemma ConsiderKeepsBest(seen: map<string, Tally>, b: Best, year: string, t: Tally)
    requires IsBest(seen, b) && "" !in seen
    requires year != "" && year !in seen
    ensures IsBest(seen[year := t], Consider(b, year, t))
  {
    var b' := Consider(b, year, t);
    var seen' := seen[year := t];
    var avg := Average(t);
    if b' != b {
      forall k | k in seen' && k != year && Average(seen'[k]).Some?
        ensures Average(seen'[k]).value < avg.value
          || (Average(seen'[k]).value == avg.value && Less(year, k))
      {
        if b.year != "" && Average(seen[k]).value == avg.value {
          if k != b.year {
            LessTransitive(year, b.year, k);
          }
        }
      }
    } else if b.year != "" && avg.Some? && avg.value == b.average {
      LessTrichotomy(year, b.year);
    }
  }

  /** The choice is determined by the table, whatever order the keys are visited in. */
  lemma BestIsUnique(table: map<string, Tally>, b1: Best, b2: Best)
    requires IsBest(table, b1) && IsBest(table, b2)
    ensures b1 == b2
  {
    if b1.year != "" && b2.year != "" && b1.year != b2.year {
      LessAsymmetric(b1.year, b2.year);
    }
  }

  /** The `reduce` that builds the table, one movie at a time. */
  method TallyScores(movies: seq<Movie>) returns (scoresByYear: map<string, Tally>)
    ensures scoresByYear == TallyByYear(movies)
  {
    scoresByYear := map[];
    for i := 0 to |movies|
      invariant scoresByYear == TallyByYear(movies[..i])
    {
      ghost var before := scoresByYear;
      var k := YearKey(movies[i].year);
      if k !in scoresByYear {
        scoresByYear := scoresByYear[k := Tally(Some(0.0), 0)];
      }
      var t := scoresByYear[k];
      scoresByYear := scoresByYear[k := Tally(AddScore(t.sum, movies[i].score), t.count + 1)];
      assert scoresByYear == Record(before, movies[i]);
      assert movies[..i + 1][..i] == movies[..i];
    }
    assert movies[..|movies|] == movies;
  }

  /** The `for...in` loop over the table's keys, visited in any order. */
  method SelectBest(scoresByYear: map<string, Tally>) returns (best: Best)
    requires "" !in scoresByYear
    ensures IsBest(scoresByYear, best)
  {
    best := Best("", 0.0);
    var todo := scoresByYear.Keys;
    while todo != {}
      invariant todo <= scoresByYear.Keys
      invariant IsBest(scoresByYear - todo, best)
      decreases todo
    {
      var year :| year in todo;
      ConsiderKeepsBest(scoresByYear - todo, best, year, scoresByYear[year]);
      assert (scoresByYear - todo)[year := scoresByYear[year]] == scoresByYear - (todo - {year});
      best := Consider(best, year, scoresByYear[year]);
      todo := todo - {year};
    }
    assert scoresByYear - todo == scoresByYear;
  }

  /**
   * `bestYearAvg`: `None` (JavaScript `null`) for an empty list; otherwise the
   * year and average the message reports.
   */
  method BestYearAvg(movies: seq<Movie>) returns (r: Option<Best>)
    ensures r.None? <==> movies == []
    ensures r.Some? ==> IsBest(TallyByYear(movies), r.value)
  {
    if |movies| == 0 {
      return None;
    }
    var scoresByYear := TallyScores(movies);
    TallyKeysAreYearKeys(movies);
    var best := SelectBest(scoresByYear);
    return Some(best);
  }

  /** The keys of the table, one per movie, in list order. */
  function YearKeys(movies: seq<Movie>): (r: seq<string>)
    ensures |r| == |movies|
    ensures forall i :: 0 <= i < |movies| ==> r[i] == YearKey(movies[i].year)
  {
    seq(|movies|, i requires 0 <= i < |movies| => YearKey(movies[i].year))
  }

  /** The table has an entry exactly for the years that occur. */
  lemma {:induction false} TallyKeysAreYearKeys(movies: seq<Movie>)
    ensures forall k :: k in TallyByYear(movies) <==> k in YearKeys(movies)
    decreases |movies|
  {
    if movies != [] {
      var prefix := movies[..|movies| - 1];
      TallyKeysAreYearKeys(prefix);
      assert YearKeys(movies) == YearKeys(prefix) + [YearKey(movies[|movies| - 1].year)];
    }
  }

  /** The counts of `table` at `keys`, added up (0 for a key without an entry). */
  function CountsOver(keys: seq<string>, table: map<string, Tally>): nat
    decreases |keys|
  {
    if keys == [] then 0
    else
      var k := keys[|keys| - 1];
      CountsOver(keys[..|keys| - 1], table) + (if k in table then table[k].count else 0)
  }

  lemma {:induction false} CountsOverIgnores(keys: seq<string>, table: map<string, Tally>, k: string, t: Tally)
    requires k !in keys
    ensures CountsOver(keys, table[k := t]) == CountsOver(keys, table)
    decreases |keys|
  {
    if keys != [] {
      CountsOverIgnores(keys[..|keys| - 1], table, k, t);
    }
  }

  lemma {:induction false} CountsOverIncrement(keys: seq<string>, table: map<string, Tally>, k: string, t: Tally)
    requires Directors.NoDuplicates(keys) && k in keys && k in table
    requires t.count == table[k].count + 1
    ensures CountsOver(keys, table[k := t]) == CountsOver(keys, table) + 1
    decreases |keys|
  {
    var prefix := keys[..|keys| - 1];
    if keys[|keys| - 1] == k {
      assert k !in prefix;
      CountsOverIgnores(prefix, table, k, t);
    } else {
      assert k in prefix;
      CountsOverIncrement(prefix, table, k, t);
    }
  }

  /**
   * The counts of the table, taken over its keys in insertion order, add up to
   * the number of movies: every movie is counted in exactly one year.
   */
  lemma {:induction false} TallyCountsSumToLength(movies: seq<Movie>)
    ensures CountsOver(Directors.Dedup(YearKeys(movies)), TallyByYear(movies)) == |movies|
    decreases |movies|
  {
    if movies != [] {
      var prefix, m := movies[..|movies| - 1], movies[|movies| - 1];
      assert movies == prefix + [m];
      TallyCountsSumToLength(prefix);
      AppendOneKey(prefix, m);
      TallyKeysAreYearKeys(prefix);
      RecordAddsOne(Directors.Dedup(YearKeys(prefix)), TallyByYear(prefix), m);
    }
  }

  /** Recording one more movie adds one to the counts over the keys, its own key included. */
  lemma RecordAddsOne(d: seq<string>, table: map<string, Tally>, m: Movie)
    requires Directors.NoDuplicates(d)
    requires forall k :: k in table <==> k in d
    ensures var k := YearKey(m.year);
      CountsOver(if k in d then d else d + [k], Record(table, m)) == CountsOver(d, table) + 1
  {
    var k := YearKey(m.year);
    var t := if k in table then table[k] else Tally(Some(0.0), 0);
    var t' := Tally(AddScore(t.sum, m.score), t.count + 1);
    assert Record(table, m) == table[k := t'];
    if k in d {
      CountsOverIncrement(d, table, k, t');
    } else {
      CountsOverIgnores(d, table, k, t');
      assert (d + [k])[..|d|] == d;
    }
  }

  /** How the key list and its deduplication grow by one movie. */
  lemma AppendOneKey(prefix: seq<Movie>, m: Movie)
    ensures YearKeys(prefix + [m]) == YearKeys(prefix) + [YearKey(m.year)]
    ensures var d := Directors.Dedup(YearKeys(prefix));
      Directors.Dedup(YearKeys(prefix + [m])) == if YearKey(m.year) in d then d else d + [YearKey(m.year)]
  {
    var keys := YearKeys(prefix + [m]);
    assert keys[..|keys| - 1] == YearKeys(prefix);
  }

  /** The years of the movies, in list order. */
  function Years(movies: seq<Movie>): (r: seq<int>)
    ensures |r| == |movies|
    ensures forall i :: 0 <= i < |movies| ==> r[i] == movies[i].year
  {
    seq(|movies|, i requires 0 <= i < |movies| => movies[i].year)
  }

  /** A year has an entry exactly when it occurs, and the entry counts its movies. */
  lemma {:induction false} TallyCountPerYear(movies: seq<Movie>, year: int)
    ensures YearKey(year) in TallyByYear(movies) <==> year in Years(movies)
    ensures YearKey(year) in TallyByYear(movies) ==>
      TallyByYear(movies)[YearKey(year)].count == multiset(Years(movies))[year]
    decreases |movies|
  {
    if movies != [] {
      var prefix, m := movies[..|movies| - 1], movies[|movies| - 1];
      TallyCountPerYear(prefix, year);
      assert Years(movies) == Years(prefix) + [m.year];
      if YearKey(m.year) == YearKey(year) {
        YearKeyInjective(m.year, year);
      }
    }
  }

  /** The movies of one year, in list order. */
  function MoviesOfYear(movies: seq<Movie>, year: int): seq<Movie> {
    Filter(movies, (m: Movie) => m.year == year)
  }

  /** A year's sum, when it is not NaN, is the total score of that year's movies. */
  lemma {:induction false} TallySumPerYear(movies: seq<Movie>, year: int)
    requires YearKey(year) in TallyByYear(movies)
    requires TallyByYear(movies)[YearKey(year)].sum.Some?
    ensures TallyByYear(movies)[YearKey(year)].sum.value == Scores.TotalScore(MoviesOfYear(movies, year))
    decreases |movies|
  {
    var k := YearKey(year);
    var prefix, m := movies[..|movies| - 1], movies[|movies| - 1];
    var table := TallyByYear(prefix);
    var before := MoviesOfYear(prefix, year);
    assert TallyByYear(movies) == Record(table, m);
    if m.year == year {
      assert MoviesOfYear(movies, year) == before + [m];
      assert (before + [m])[..|before|] == before;
      if k in table {
        TallySumPerYear(prefix, year);
      } else {
        TallyCountPerYear(prefix, year);
      }
    } else {
      if YearKey(m.year) == k {
        YearKeyInjective(m.year, year);
      }
      assert MoviesOfYear(movies, year) == before;
      TallySumPerYear(prefix, year);
    }
  }

  /**
   * A year's sum is NaN exactly when one of its movies has no score; its
   * average is then NaN too and the year is never chosen.
   */
  lemma {:induction false} TallySumIsNaN(movies: seq<Movie>, year: int)
    requires YearKey(year) in TallyByYear(movies)
    ensures TallyByYear(movies)[YearKey(year)].sum.None? <==>
      exists i :: 0 <= i < |movies| && movies[i].year == year && movies[i].score.None?
    decreases |movies|
  {
    var k := YearKey(year);
    var prefix, m := movies[..|movies| - 1], movies[|movies| - 1];
    if YearKey(m.year) == k {
      YearKeyInjective(m.year, year);
    }
    if k in TallyByYear(prefix) {
      TallySumIsNaN(prefix, year);
    } else {
      TallyCountPerYear(prefix, year);
    }
    if exists i :: 0 <= i < |prefix| && prefix[i].year == year && prefix[i].score.None? {
      var i :| 0 <= i < |prefix| && prefix[i].year == year && prefix[i].score.None?;
      assert movies[i] == prefix[i];
    }
    if exists i :: 0 <= i < |movies| && movies[i].year == year && movies[i].score.None? {
      var i :| 0 <= i < |movies| && movies[i].year == year && movies[i].score.None?;
      if i < |prefix| {
        assert prefix[i] == movies[i];
      }
    }
  }

  lemma KeysOf2000And2001()
    ensures YearKey(2000) == "2000" && YearKey(2001) == "2001"
  {
    assert NatToDecimal(200) == NatToDecimal(20) + "0";
    assert NatToDecimal(2000) == NatToDecimal(200) + "0";
    assert NatToDecimal(2001) == NatToDecimal(200) + "1";
  }

  /**
   * Two movies, from 2000 scored 5 and from 2001 scored 9: the best year is
   * "2001" with average 9.
   */
  lemma BestYearExample(a: Movie, b: Movie)
    requires a.year == 2000 && a.score == Some(5.0)
    requires b.year == 2001 && b.score == Some(9.0)
    ensures forall r :: IsBest(TallyByYear([a, b]), r) ==> r == Best("2001", 9.0)
  {
    KeysOf2000And2001();
    assert [a, b][..1] == [a] && [a][..0] == [];
    var table := TallyByYear([a, b]);
    assert table == map["2000" := Tally(Some(5.0), 1), "2001" := Tally(Some(9.0), 1)] by {
      assert TallyByYear([a]) == Record(map[], a) == map["2000" := Tally(Some(5.0), 1)];
      assert table == Record(TallyByYear([a]), b);
    }
    assert IsBest(table, Best("2001", 9.0));
    forall r | IsBest(table, r)
      ensures r == Best("2001", 9.0)
    {
      BestIsUnique(table, r, Best("2001", 9.0));
    }
  }
}
