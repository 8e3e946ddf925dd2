/**
 * `turnHoursToMinutes`: each duration string is searched with `/(\d+)h/` and
 * `/(\d+)min/`, and becomes hours * 60 + minutes, a missing part counting 0.
 */
module Duration {
  import opened Wrappers
  import opened Decimal
  import opened MovieRecord

  /** The end of the maximal run of digits that starts at `p` (`p` itself when `s[p]` is no digit). */
  function RunEnd(s: string, p: nat): (q: nat)
    requires p <= |s|
    ensures p <= q <= |s|
    ensures forall i :: p <= i < q ==> IsDigit(s[i])
    ensures q == |s| || !IsDigit(s[q])
    decreases |s| - p
  {
    if p < |s| && IsDigit(s[p]) then RunEnd(s, p + 1) else p
  }

  /** The run end is the first non-digit position at or after `p`. */
  lemma RunEndAt(s: string, p: nat, q: nat)
    requires p <= q <= |s|
    requires forall i :: p <= i < q ==> IsDigit(s[i])
    requires q == |s| || !IsDigit(s[q])
    ensures RunEnd(s, p) == q
  {
  }

  /**
   * The pattern `(\d+)` followed by `suffix` matches at `p`. The greedy `\d+`
   * takes the whole run of digits from `p`; giving back digits cannot help,
   * since `suffix` never starts with a digit.
   */
  predicate MatchesAt(s: string, suffix: string, p: nat) {
    p < |s| && IsDigit(s[p]) && suffix <= s[RunEnd(s, p)..]
  }

  /** The leftmost position at or after `p` where the pattern matches, as a regular-expression search finds it. */
  function FindMatch(s: string, suffix: string, p: nat): (r: Option<nat>)
    requires p <= |s|
    ensures r.Some? ==> p <= r.value < |s| && MatchesAt(s, suffix, r.value)
    ensures r.Some? ==> forall i :: p <= i < r.value ==> !MatchesAt(s, suffix, i)
    ensures r.None? ==> forall i :: p <= i < |s| ==> !MatchesAt(s, suffix, i)
    decreases |s| - p
  {
    if p == |s| then None
    else if MatchesAt(s, suffix, p) then Some(p)
    else FindMatch(s, suffix, p + 1)
  }

  /** The leftmost match starts a maximal run of digits: the capture is the whole run. */
  lemma LeftmostMatchStartsRun(s: string, suffix: string)
    requires FindMatch(s, suffix, 0).Some?
    ensures var p := FindMatch(s, suffix, 0).value; p == 0 || !IsDigit(s[p - 1])
  {
    var p := FindMatch(s, suffix, 0).value;
    if p > 0 && IsDigit(s[p - 1]) {
      assert RunEnd(s, p - 1) == RunEnd(s, p);
      assert MatchesAt(s, suffix, p - 1);
    }
  }

  /** The first capture group of `s.match(/(\d+)<suffix>/)`, or none when it does not match. */
  function FirstCapture(s: string, suffix: string): (r: Option<string>)
    ensures r.Some? ==> 1 <= |r.value| && AllDigits(r.value)
  {
    match FindMatch(s, suffix, 0)
    case None => None
    case Some(p) => Some(s[p..RunEnd(s, p)])
  }

  /** `parseInt` of the capture, or 0 when the pattern does not match. */
  function CaptureValue(s: string, suffix: string): nat {
    match FirstCapture(s, suffix)
    case None => 0
    case Some(digits) => DigitsValue(digits)
  }

  /**
   * The minutes `turnHoursToMinutes` computes for one duration string: hours
   * times 60 plus minutes, a part the string lacks counting 0.
   */
  function DurationMinutes(text: string): (r: nat)
    ensures FindMatch(text, "h", 0).None? ==> r == CaptureValue(text, "min")
    ensures FindMatch(text, "min", 0).None? ==> r == CaptureValue(text, "h") * 60
  {
    CaptureValue(text, "h") * 60 + CaptureValue(text, "min")
  }

  /** `turnHoursToMinutes`: new records, equal to the old ones except for the duration. */
  function TurnHoursToMinutes(movies: seq<Movie>): (r: seq<Movie>)
    requires forall i :: 0 <= i < |movies| ==> movies[i].duration.Text?
    ensures |r| == |movies|
    ensures forall i :: 0 <= i < |movies| ==>
      && r[i].title == movies[i].title
      && r[i].year == movies[i].year
      && r[i].director == movies[i].director
      && r[i].genre == movies[i].genre
      && r[i].score == movies[i].score
      && r[i].duration == Minutes(DurationMinutes(movies[i].duration.text))
  {
    seq(|movies|, i requires 0 <= i < |movies| =>
      movies[i].(duration := Minutes(DurationMinutes(movies[i].duration.text))))
  }

  /** A duration written the way the data writes it: "<N>h <M>min", either part possibly absent. */
  function FormatDuration(hours: Option<nat>, minutes: Option<nat>): string {
    match (hours, minutes)
    case (Some(h), Some(m)) => NatToDecimal(h) + "h " + NatToDecimal(m) + "min"
    case (Some(h), None) => NatToDecimal(h) + "h"
    case (None, Some(m)) => NatToDecimal(m) + "min"
    case (None, None) => ""
  }

  /** In `d + rest`, every position of the digit string `d` starts a run ending where `rest` begins. */
  lemma RunThroughDigits(d: string, rest: string, p: nat)
    requires AllDigits(d) && p < |d|
    requires rest == [] || !IsDigit(rest[0])
    ensures RunEnd(d + rest, p) == |d|
    ensures (d + rest)[|d|..] == rest
  {
    RunEndAt(d + rest, p, |d|);
  }

  /** The value the pattern captures in `NatToDecimal(n) + rest` when `rest` starts with `suffix`. */
  lemma CaptureAtStart(n: nat, rest: string, suffix: string)
    requires suffix != [] && !IsDigit(suffix[0]) && suffix <= rest
    ensures CaptureValue(NatToDecimal(n) + rest, suffix) == n
  {
    var d := NatToDecimal(n);
    var s := d + rest;
    RunThroughDigits(d, rest, 0);
    assert MatchesAt(s, suffix, 0);
    assert s[0..|d|] == d;
    DigitsValueOfDecimal(n);
  }

  /** No position inside the digit string `d` matches in `d + rest` unless `rest` starts with `suffix`. */
  lemma NoMatchInDigits(d: string, rest: string, suffix: string, p: nat)
    requires AllDigits(d) && p < |d|
    requires rest == [] || !IsDigit(rest[0])
    requires !(suffix <= rest)
    ensures !MatchesAt(d + rest, suffix, p)
  {
    RunThroughDigits(d, rest, p);
  }

  /** After a prefix where the pattern cannot match, it captures the number written next. */
  lemma CaptureAfter(x: string, n: nat, rest: string, suffix: string)
    requires suffix != [] && !IsDigit(suffix[0]) && suffix <= rest
    requires x == [] || !IsDigit(x[|x| - 1])
    requires forall p: nat :: p < |x| ==> !MatchesAt(x + NatToDecimal(n) + rest, suffix, p)
    ensures CaptureValue(x + NatToDecimal(n) + rest, suffix) == n
  {
    var e := NatToDecimal(n);
    var s := x + e + rest;
    var q := |x|;
    RunEndAt(s, q, q + |e|);
    assert s[q + |e|..] == rest;
    assert MatchesAt(s, suffix, q);
    assert s[q..q + |e|] == e;
    DigitsValueOfDecimal(n);
  }

  /** "<h>h <m>min" reads as h * 60 + m. */
  lemma HoursAndMinutesRoundTrip(h: nat, m: nat)
    ensures DurationMinutes(FormatDuration(Some(h), Some(m))) == h * 60 + m
  {
    var d, e := NatToDecimal(h), NatToDecimal(m);
    var rest := "h " + e + "min";
    var s := d + rest;
    assert FormatDuration(Some(h), Some(m)) == s;
    CaptureAtStart(h, rest, "h");
    var x := d + "h ";
    assert s == x + e + "min";
    forall p: nat | p < |x|
      ensures !MatchesAt(s, "min", p)
    {
      if p < |d| {
        NoMatchInDigits(d, rest, "min", p);
      } else {
        assert s[p] == x[p];
      }
    }
    CaptureAfter(x, m, "min", "min");
  }

  /** "<h>h" reads as h * 60. */
  lemma HoursOnlyRoundTrip(h: nat)
    ensures DurationMinutes(FormatDuration(Some(h), None)) == h * 60
  {
    var d := NatToDecimal(h);
    var s := FormatDuration(Some(h), None);
    CaptureAtStart(h, "h", "h");
    forall p: nat | p < |s|
      ensures !MatchesAt(s, "min", p)
    {
      if p < |d| {
        NoMatchInDigits(d, "h", "min", p);
      }
    }
    assert FindMatch(s, "min", 0) == None;
  }

  /** "<m>min" reads as m. */
  lemma MinutesOnlyRoundTrip(m: nat)
    ensures DurationMinutes(FormatDuration(None, Some(m))) == m
  {
    var e := NatToDecimal(m);
    var s := FormatDuration(None, Some(m));
    CaptureAtStart(m, "min", "min");
    forall p: nat | p < |s|
      ensures !MatchesAt(s, "h", p)
    {
      if p < |e| {
        NoMatchInDigits(e, "min", "h", p);
      }
    }
    assert FindMatch(s, "h", 0) == None;
  }

  /** Parsing a formatted duration gives back hours * 60 + minutes, a missing part counting 0. */
  lemma DurationRoundTrip(hours: Option<nat>, minutes: Option<nat>)
    ensures DurationMinutes(FormatDuration(hours, minutes)) == hours.GetOr(0) * 60 + minutes.GetOr(0)
  {
    match (hours, minutes)
    case (Some(h), Some(m)) => HoursAndMinutesRoundTrip(h, m);
    case (Some(h), None) => HoursOnlyRoundTrip(h);
    case (None, Some(m)) => MinutesOnlyRoundTrip(m);
    case (None, None) =>
  }

  /** A string with no digit in it converts to 0 minutes. */
  lemma NoDigitsGivesZero(text: string)
    requires forall i :: 0 <= i < |text| ==> !IsDigit(text[i])
    ensures DurationMinutes(text) == 0
  {
  }

  /** "2h 22min" converts to 142 minutes. */
  lemma HoursAndMinutesExample()
    ensures DurationMinutes("2h 22min") == 142
  {
    assert NatToDecimal(2) == "2";
    assert NatToDecimal(22) == NatToDecimal(2) + [DigitChar(2)] == "22";
    assert FormatDuration(Some(2), Some(22)) == "2h 22min";
    HoursAndMinutesRoundTrip(2, 22);
  }

  /** "1h" converts to 60 minutes. */
  lemma HoursOnlyExample()
    ensures DurationMinutes("1h") == 60
  {
    assert NatToDecimal(1) == "1";
    HoursOnlyRoundTrip(1);
  }

  /** "45min" converts to 45 minutes. */
  lemma MinutesOnlyExample()
    ensures DurationMinutes("45min") == 45
  {
    assert NatToDecimal(45) == NatToDecimal(4) + [DigitChar(5)] == "45";
    assert FormatDuration(None, Some(45)) == "45min";
    MinutesOnlyRoundTrip(45);
  }
}
