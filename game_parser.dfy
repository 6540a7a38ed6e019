/** The score accumulator: parses the runs/wickets and over.ball readings of a frame and folds
    the accepted readings, in arrival order, into a list of per-frame deltas. */
module GameParser {
  import opened Wrappers
  import opened Text
  import opened Patterns

  /** `int.MaxValue`. */
  const MaxInt: int := 0x7FFF_FFFF

  /** The keys the accumulator reads from a frame's label-to-text map. */
  const RunsWicketsKey := "RunsWickets"
  const OversKey := "Overs"

  /** A `DateTime`, as its tick count. */
  type Timestamp = int

  /** One emitted result. The accumulator never sets the four participant fields (they stay null). */
  datatype BallResult = BallResult(
    overNumber: int,
    ballNumber: int,
    runs: int,
    wickets: int,
    frameNumber: int,
    timestamp: Timestamp,
    batter1: Option<string>,
    batter2: Option<string>,
    battingTeam: Option<string>,
    bowler: Option<string>)

  // ---------------------------------------------------------------------------------------------
  // TryParseScore and TryParseOvers
  // ---------------------------------------------------------------------------------------------

  /** The `bool` result and the two `out int` parameters of TryParseScore and TryParseOvers. */
  datatype TryResult = TryResult(success: bool, first: int, second: int)

  /** `int.Parse` on a string of ASCII digits: it throws when the value does not fit an `int`. */
  function IntParse(d: string): (r: Outcome<int>)
    requires IsNumeral(d)
    ensures r.Ok? <==> DecimalValue(d) <= MaxInt
    ensures r.Ok? ==> r.value == DecimalValue(d)
    ensures r.Throws? ==> r.exception == OverflowException
  {
    var v := DecimalValue(d);
    if v <= MaxInt then Ok(v) else Throws(OverflowException)
  }

  /** A numeral of at most nine digits never makes `int.Parse` throw. */
  lemma ShortNumeralsParse(d: string)
    requires IsNumeral(d) && |d| <= 9
    ensures IntParse(d).Ok?
  {
    DecimalValueBound(d);
    PowMonotone(|d|, 9);
    assert Pow10(9) == 1_000_000_000;
  }

  lemma {:induction false} PowMonotone(m: nat, n: nat)
    requires m <= n
    ensures Pow10(m) <= Pow10(n)
    decreases n
  {
    if m < n {
      PowMonotone(m, n - 1);
    }
  }

  /** Both capture groups through `int.Parse`, group 1 first. */
  function ParseGroups(groups: Captures): (r: Outcome<TryResult>)
    requires IsNumeral(groups.first) && IsNumeral(groups.second)
  {
    match IntParse(groups.first)
    case Throws(e) => Throws(e)
    case Ok(first) =>
      match IntParse(groups.second)
      case Throws(e) => Throws(e)
      case Ok(second) => Ok(TryResult(true, first, second))
  }

  /** The shared shape of TryParseScore and TryParseOvers: outputs 0 and 0, match `text ?? ""`,
      then parse both groups. */
  function TryParse(pat: Pattern, text: Option<string>): (r: Outcome<TryResult>)
    requires WellFormed(pat)
    ensures text.None? ==> r == Ok(TryResult(false, 0, 0))
    ensures r.Throws? ==> r.exception == OverflowException
    ensures r.Ok? && !r.value.success ==> r.value.first == 0 && r.value.second == 0
    ensures r.Ok? && r.value.success ==> 0 <= r.value.first <= MaxInt && 0 <= r.value.second <= MaxInt
  {
    var s := if text.Some? then text.value else "";
    match Match(pat, s, 0)
    case None => Ok(TryResult(false, 0, 0))
    case Some(groups) => ParseGroups(groups)
  }

  /** TryParse fails exactly when the pattern does not occur in the text (a null text counts as
      empty); otherwise it parses the groups of the leftmost occurrence, group 2 taken greedily. */
  lemma TryParseMeaning(pat: Pattern, text: Option<string>)
    requires WellFormed(pat)
    ensures var s := if text.Some? then text.value else "";
            && (TryParse(pat, text) == Ok(TryResult(false, 0, 0)) <==> !Matches(pat, s))
            && (Matches(pat, s) ==>
                  exists a, b, p, c, d :: RegexMatch(pat, s, a, b, p, c, d) &&
                                          TryParse(pat, text) == ParseGroups(Captures(s[a..b], s[c..d])))
  {
    var s := if text.Some? then text.value else "";
    MatchMeaning(pat, s);
  }

  /** `TryParseScore`: `(\d+)\s*` then `/`, then `\s*(\d+)`. */
  function TryParseScore(text: Option<string>): (r: Outcome<TryResult>)
    ensures text.None? ==> r == Ok(TryResult(false, 0, 0))
    ensures r.Throws? ==> r.exception == OverflowException
    ensures r.Ok? && r.value.success ==> '/' in text.value
  {
    var s := if text.Some? then text.value else "";
    assert '/' !in s ==> Match(ScorePattern, s, 0).None? by {
      if '/' !in s {
        SeparatorNeeded(ScorePattern, s);
      }
    }
    TryParse(ScorePattern, text)
  }

  /** `TryParseOvers`: `(\d+)` then `.`, then `(\d+)`, no white space. */
  function TryParseOvers(text: Option<string>): (r: Outcome<TryResult>)
    ensures text.None? ==> r == Ok(TryResult(false, 0, 0))
    ensures r.Throws? ==> r.exception == OverflowException
    ensures r.Ok? && r.value.success ==> '.' in text.value
  {
    var s := if text.Some? then text.value else "";
    assert '.' !in s ==> Match(OversPattern, s, 0).None? by {
      if '.' !in s {
        SeparatorNeeded(OversPattern, s);
      }
    }
    TryParse(OversPattern, text)
  }

  /** TryParseScore succeeds or throws exactly when the text holds digits, optional white space, `/`,
      optional white space and digits; its values are those of the leftmost such digit runs. */
  lemma TryParseScoreMeaning(text: Option<string>)
    ensures text.None? ==> TryParseScore(text) == Ok(TryResult(false, 0, 0))
    ensures var s := if text.Some? then text.value else "";
            && (TryParseScore(text) == Ok(TryResult(false, 0, 0)) <==> !Matches(ScorePattern, s))
            && (Matches(ScorePattern, s) ==>
                  exists a, b, p, c, d :: RegexMatch(ScorePattern, s, a, b, p, c, d) &&
                                          TryParseScore(text) == ParseGroups(Captures(s[a..b], s[c..d])))
  {
    TryParseMeaning(ScorePattern, text);
  }

  /** TryParseOvers succeeds or throws exactly when the text holds digits, `.` and digits with
      nothing between them; on failure both outputs are 0. */
  lemma TryParseOversMeaning(text: Option<string>)
    ensures var s := if text.Some? then text.value else "";
            && (TryParseOvers(text) == Ok(TryResult(false, 0, 0)) <==> !Matches(OversPattern, s))
            && (Matches(OversPattern, s) ==>
                  exists a, b, p, c, d :: RegexMatch(OversPattern, s, a, b, p, c, d) &&
                                          p == b && c == b + 1 && s[b] == '.' &&
                                          TryParseOvers(text) == ParseGroups(Captures(s[a..b], s[b + 1..d])))
  {
    TryParseMeaning(OversPattern, text);
  }

  // ---------------------------------------------------------------------------------------------
  // ProcessFrameData, as a function of the parser's state
  // ---------------------------------------------------------------------------------------------

  /** `frameData.GetValueOrDefault(key)`. */
  function Field(frameData: map<string, string>, key: string): (r: Option<string>)
    ensures r.Some? <==> key in frameData
    ensures r.Some? ==> r.value == frameData[key]
  {
    if key in frameData then Some(frameData[key]) else None
  }

  /** An accepted reading: cumulative runs and wickets, and the over and ball shown. */
  datatype Reading = Reading(runs: int, wickets: int, over: int, ball: int)

  /** The two guards of ProcessFrameData: the reading, Ok(None) for an early return, or the
      exception `int.Parse` raised. */
  function ReadFrame(frameData: map<string, string>): (r: Outcome<Option<Reading>>)
    ensures r.Ok? && r.value.Some? ==>
              var rd := r.value.value;
              && TryParseScore(Field(frameData, RunsWicketsKey)) == Ok(TryResult(true, rd.runs, rd.wickets))
              && TryParseOvers(Field(frameData, OversKey)) == Ok(TryResult(true, rd.over, rd.ball))
    ensures var score := TryParseScore(Field(frameData, RunsWicketsKey));
            var overs := TryParseOvers(Field(frameData, OversKey));
            && (score.Ok? && score.value.success && overs.Ok? && overs.value.success ==>
                  r == Ok(Some(Reading(score.value.first, score.value.second, overs.value.first, overs.value.second))))
            && (r.Throws? <==> score.Throws? || (score.Ok? && score.value.success && overs.Throws?))
            && (score.Throws? ==> r == Throws(score.exception))
            && (r == Ok(None) <==> score.Ok? && (!score.value.success || (overs.Ok? && !overs.value.success)))
  {
    match TryParseScore(Field(frameData, RunsWicketsKey))
    case Throws(e) => Throws(e)
    case Ok(score) =>
      if !score.success then Ok(None)
      else
        match TryParseOvers(Field(frameData, OversKey))
        case Throws(e) => Throws(e)
        case Ok(overs) =>
          if !overs.success then Ok(None)
          else Ok(Some(Reading(score.first, score.second, overs.first, overs.second)))
  }

  /** The fields of the parser: `_lastRuns`, `_lastWickets` (both nullable), `_currentOver`,
      `_currentBall` and `_results`. */
  datatype ParserState = ParserState(
    lastRuns: Option<int>,
    lastWickets: Option<int>,
    currentOver: int,
    currentBall: int,
    results: seq<BallResult>)

  const Initial := ParserState(None, None, 0, 0, [])

  /** A first reading has been committed. */
  predicate Seeded(st: ParserState) {
    st.lastRuns.Some? && st.lastWickets.Some?
  }

  function Max(a: int, b: int): int {
    if a >= b then a else b
  }

  /** The locked block of ProcessFrameData: the first reading seeds the state, every later one
      appends a result with clamped deltas; both commit the reading. */
  function Commit(st: ParserState, rd: Reading, frameNumber: int, timestamp: Timestamp): (st': ParserState)
    ensures st'.lastRuns == Some(rd.runs) && st'.lastWickets == Some(rd.wickets)
    ensures st'.currentOver == rd.over && st'.currentBall == rd.ball
    ensures !Seeded(st) ==> st'.results == st.results
    ensures Seeded(st) ==> |st'.results| == |st.results| + 1 && st'.results[..|st.results|] == st.results
    ensures Seeded(st) ==>
              var b := st'.results[|st.results|];
              && b.overNumber == rd.over && b.ballNumber == rd.ball
              && b.frameNumber == frameNumber && b.timestamp == timestamp
              && b.runs >= 0 && b.runs >= rd.runs - st.lastRuns.value
              && (b.runs == 0 || b.runs == rd.runs - st.lastRuns.value)
              && b.wickets >= 0 && b.wickets >= rd.wickets - st.lastWickets.value
              && (b.wickets == 0 || b.wickets == rd.wickets - st.lastWickets.value)
              && b.batter1.None? && b.batter2.None? && b.battingTeam.None? && b.bowler.None?
  {
    if !Seeded(st) then
      ParserState(Some(rd.runs), Some(rd.wickets), rd.over, rd.ball, st.results)
    else
      var deltaRuns := Max(0, rd.runs - st.lastRuns.value);
      var deltaWickets := Max(0, rd.wickets - st.lastWickets.value);
      var b := BallResult(rd.over, rd.ball, deltaRuns, deltaWickets, frameNumber, timestamp, None, None, None, None);
      ParserState(Some(rd.runs), Some(rd.wickets), rd.over, rd.ball, st.results + [b])
  }

  /** One call of ProcessFrameData on a state. */
  function Ingest(st: ParserState, frameData: map<string, string>, frameNumber: int, timestamp: Timestamp)
    : (r: Outcome<ParserState>)
    ensures r.Throws? <==> ReadFrame(frameData).Throws?
    ensures r.Throws? ==> r.exception == OverflowException
    ensures ReadFrame(frameData) == Ok(None) ==> r == Ok(st)
    ensures ReadFrame(frameData).Ok? && ReadFrame(frameData).value.Some? ==>
              r == Ok(Commit(st, ReadFrame(frameData).value.value, frameNumber, timestamp))
  {
    match ReadFrame(frameData)
    case Throws(e) => Throws(e)
    case Ok(None) => Ok(st)
    case Ok(Some(rd)) => Ok(Commit(st, rd, frameNumber, timestamp))
  }

  /** A frame whose runs/wickets or over.ball text is missing or does not match leaves every field
      and the result list as they were. */
  lemma RejectedFrameChangesNothing(st: ParserState, frameData: map<string, string>, frameNumber: int, timestamp: Timestamp)
    ensures RunsWicketsKey !in frameData ==> Ingest(st, frameData, frameNumber, timestamp) == Ok(st)
    ensures RunsWicketsKey in frameData && !Matches(ScorePattern, frameData[RunsWicketsKey]) ==>
              Ingest(st, frameData, frameNumber, timestamp) == Ok(st)
    ensures TryParseScore(Field(frameData, RunsWicketsKey)).Ok? &&
            (OversKey !in frameData || !Matches(OversPattern, frameData[OversKey])) ==>
              Ingest(st, frameData, frameNumber, timestamp) == Ok(st)
  {
    TryParseScoreMeaning(Field(frameData, RunsWicketsKey));
    TryParseOversMeaning(Field(frameData, OversKey));
  }

  /** Every value the parser holds is a non-negative `int`, and the deltas never go negative. */
  predicate ValidResult(b: BallResult) {
    && 0 <= b.runs <= MaxInt && 0 <= b.wickets <= MaxInt
    && 0 <= b.overNumber <= MaxInt && 0 <= b.ballNumber <= MaxInt
  }

  ghost predicate Consistent(st: ParserState) {
    && st.lastRuns.Some? == st.lastWickets.Some?
    && (!Seeded(st) ==> st.results == [] && st.currentOver == 0 && st.currentBall == 0)
    && (Seeded(st) ==>
          && 0 <= st.lastRuns.value <= MaxInt && 0 <= st.lastWickets.value <= MaxInt
          && 0 <= st.currentOver <= MaxInt && 0 <= st.currentBall <= MaxInt)
    && forall j :: 0 <= j < |st.results| ==> ValidResult(st.results[j])
  }

  /** ProcessFrameData keeps the state consistent; in particular no emitted delta is negative. */
  lemma IngestKeepsConsistent(st: ParserState, frameData: map<string, string>, frameNumber: int, timestamp: Timestamp)
    requires Consistent(st)
    ensures Ingest(st, frameData, frameNumber, timestamp).Ok? ==> Consistent(Ingest(st, frameData, frameNumber, timestamp).value)
  {
    var r := Ingest(st, frameData, frameNumber, timestamp);
    if r.Ok? && r.value != st {
      var rd := ReadFrame(frameData).value.value;
      var st' := r.value;
      assert st' == Commit(st, rd, frameNumber, timestamp);
      forall j | 0 <= j < |st'.results| ensures ValidResult(st'.results[j]) {
        if j < |st.results| {
          assert st'.results[j] == st'.results[..|st.results|][j];
        }
      }
    }
  }

  // ---------------------------------------------------------------------------------------------
  // Sequences of calls: what the deltas add up to
  // ---------------------------------------------------------------------------------------------

  /** A reading accepted together with the frame number and timestamp it arrived with. */
  datatype Stamped = Stamped(reading: Reading, frameNumber: int, timestamp: Timestamp)

  /** Accepted readings committed one after another, in arrival order. */
  function CommitAll(st: ParserState, xs: seq<Stamped>): ParserState
    decreases |xs|
  {
    if xs == [] then st
    else CommitAll(Commit(st, xs[0].reading, xs[0].frameNumber, xs[0].timestamp), xs[1..])
  }

  /** A call of ProcessFrameData. */
  datatype Call = Call(frameData: map<string, string>, frameNumber: int, timestamp: Timestamp)

  /** Calls of ProcessFrameData one after another; the first exception ends the run. */
  function IngestAll(st: ParserState, calls: seq<Call>): Outcome<ParserState>
    decreases |calls|
  {
    if calls == [] then Ok(st)
    else match Ingest(st, calls[0].frameData, calls[0].frameNumber, calls[0].timestamp)
      case Throws(e) => Throws(e)
      case Ok(st') => IngestAll(st', calls[1..])
  }

  /** The readings of the calls that pass both guards, in arrival order. */
  function Accepted(calls: seq<Call>): seq<Stamped>
    requires forall j :: 0 <= j < |calls| ==> ReadFrame(calls[j].frameData).Ok?
    decreases |calls|
  {
    if calls == [] then []
    else
      var rest := Accepted(calls[1..]);
      match ReadFrame(calls[0].frameData).value
      case None => rest
      case Some(rd) => [Stamped(rd, calls[0].frameNumber, calls[0].timestamp)] + rest
  }

  /** When no call throws, the run depends only on the accepted readings in arrival order:
      rejected frames are invisible. */
  lemma {:induction false} IngestAllIsCommitAll(st: ParserState, calls: seq<Call>)
    requires forall j :: 0 <= j < |calls| ==> ReadFrame(calls[j].frameData).Ok?
    ensures IngestAll(st, calls) == Ok(CommitAll(st, Accepted(calls)))
    decreases |calls|
  {
    if calls != [] {
      var c := calls[0];
      assert forall j :: 0 <= j < |calls[1..]| ==> ReadFrame(calls[1..][j].frameData).Ok? by {
        forall j | 0 <= j < |calls[1..]| ensures ReadFrame(calls[1..][j].frameData).Ok? {
          assert calls[1..][j] == calls[j + 1];
        }
      }
      assert ReadFrame(c.frameData).Ok? by { assert c == calls[0]; }
      match ReadFrame(c.frameData).value
      case None =>
        IngestAllIsCommitAll(st, calls[1..]);
      case Some(rd) =>
        var st' := Commit(st, rd, c.frameNumber, c.timestamp);
        IngestAllIsCommitAll(st', calls[1..]);
        var xs := [Stamped(rd, c.frameNumber, c.timestamp)] + Accepted(calls[1..]);
        assert xs[1..] == Accepted(calls[1..]);
    }
  }

  /** Runs or wickets: the two counters whose deltas the accumulator emits. */
  datatype Counter = RunsCounter | WicketsCounter

  function CountOf(rd: Reading, c: Counter): int {
    match c
    case RunsCounter => rd.runs
    case WicketsCounter => rd.wickets
  }

  function DeltaOf(b: BallResult, c: Counter): int {
    match c
    case RunsCounter => b.runs
    case WicketsCounter => b.wickets
  }

  function BaselineOf(st: ParserState, c: Counter): Option<int> {
    match c
    case RunsCounter => st.lastRuns
    case WicketsCounter => st.lastWickets
  }

  /** The sum of the emitted deltas of one counter. */
  function Total(rs: seq<BallResult>, c: Counter): int {
    if rs == [] then 0 else Total(rs[..|rs| - 1], c) + DeltaOf(rs[|rs| - 1], c)
  }

  /** The counter's readings never decrease from one accepted reading to the next. */
  ghost predicate NonDecreasing(xs: seq<Stamped>, c: Counter) {
    forall j :: 0 < j < |xs| ==> CountOf(xs[j - 1].reading, c) <= CountOf(xs[j].reading, c)
  }

  /** Each reading after the first appends exactly one result and changes no earlier one. */
  lemma {:induction false} CommitAllAppends(st: ParserState, xs: seq<Stamped>)
    requires Seeded(st)
    ensures var rs := CommitAll(st, xs).results;
            |rs| == |st.results| + |xs| && rs[..|st.results|] == st.results
    decreases |xs|
  {
    if xs != [] {
      var st' := Commit(st, xs[0].reading, xs[0].frameNumber, xs[0].timestamp);
      CommitAllAppends(st', xs[1..]);
      var rs := CommitAll(st', xs[1..]).results;
      assert rs[..|st.results|] == rs[..|st'.results|][..|st.results|];
    }
  }

  /** From a fresh parser, n accepted readings give n - 1 results. */
  lemma FirstReadingEmitsNothing(xs: seq<Stamped>)
    requires |xs| > 0
    ensures |CommitAll(Initial, xs).results| == |xs| - 1
  {
    CommitAllAppends(Commit(Initial, xs[0].reading, xs[0].frameNumber, xs[0].timestamp), xs[1..]);
  }

  /** A clamped delta is at least the change in the counter, so the deltas of any run of readings
      add up to at least the net change from the baseline to the last reading. */
  lemma {:induction false} TotalCoversNetChange(st: ParserState, xs: seq<Stamped>, c: Counter)
    requires Seeded(st) && |xs| > 0
    ensures Total(CommitAll(st, xs).results, c) >=
            Total(st.results, c) + CountOf(xs[|xs| - 1].reading, c) - BaselineOf(st, c).value
    decreases |xs|
  {
    var st' := Commit(st, xs[0].reading, xs[0].frameNumber, xs[0].timestamp);
    assert st'.results[..|st'.results| - 1] == st.results;
    if |xs| > 1 {
      TotalCoversNetChange(st', xs[1..], c);
    }
  }

  /** When the counter never decreases, the deltas telescope: they add up to exactly the net change. */
  lemma {:induction false} TotalTelescopes(st: ParserState, xs: seq<Stamped>, c: Counter)
    requires Seeded(st) && |xs| > 0
    requires BaselineOf(st, c).value <= CountOf(xs[0].reading, c) && NonDecreasing(xs, c)
    ensures Total(CommitAll(st, xs).results, c) ==
            Total(st.results, c) + CountOf(xs[|xs| - 1].reading, c) - BaselineOf(st, c).value
    decreases |xs|
  {
    var st' := Commit(st, xs[0].reading, xs[0].frameNumber, xs[0].timestamp);
    assert st'.results[..|st'.results| - 1] == st.results;
    if |xs| > 1 {
      assert CountOf(xs[0].reading, c) <= CountOf(xs[1].reading, c);
      assert NonDecreasing(xs[1..], c) by {
        forall j | 0 < j < |xs[1..]| ensures CountOf(xs[1..][j - 1].reading, c) <= CountOf(xs[1..][j].reading, c) {
          assert xs[1..][j - 1] == xs[j] && xs[1..][j] == xs[j + 1];
        }
      }
      TotalTelescopes(st', xs[1..], c);
    }
  }

  /** From a fresh parser, if the counter never decreases across the accepted readings, the emitted
      deltas add up to the last reading minus the first. */
  lemma NetChangeFromFirstReading(xs: seq<Stamped>, c: Counter)
    requires |xs| > 0 && NonDecreasing(xs, c)
    ensures Total(CommitAll(Initial, xs).results, c) == CountOf(xs[|xs| - 1].reading, c) - CountOf(xs[0].reading, c)
  {
    var st' := Commit(Initial, xs[0].reading, xs[0].frameNumber, xs[0].timestamp);
    if |xs| > 1 {
      assert CountOf(xs[0].reading, c) <= CountOf(xs[1].reading, c);
      assert NonDecreasing(xs[1..], c) by {
        forall j | 0 < j < |xs[1..]| ensures CountOf(xs[1..][j - 1].reading, c) <= CountOf(xs[1..][j].reading, c) {
          assert xs[1..][j - 1] == xs[j] && xs[1..][j] == xs[j + 1];
        }
      }
      TotalTelescopes(st', xs[1..], c);
      assert xs[1..][|xs[1..]| - 1] == xs[|xs| - 1];
    }
  }

  /** With the ball-boundary guard commented out, a repeated reading of the same ball still emits
      a result; and a transient misread below the committed score followed by the true score emits
      a positive delta although the score did not change. */
  lemma NoDedupAndMisreadOvercount()
    ensures var rd := Reading(10, 1, 3, 2);
            |CommitAll(Initial, [Stamped(rd, 30, 0), Stamped(rd, 60, 1)]).results| == 1
    ensures var xs := [Stamped(Reading(10, 1, 3, 2), 30, 0), Stamped(Reading(5, 1, 3, 2), 60, 1),
                       Stamped(Reading(10, 1, 3, 2), 90, 2)];
            Total(CommitAll(Initial, xs).results, RunsCounter) == 5
  {
    var rd := Reading(10, 1, 3, 2);
    FirstReadingEmitsNothing([Stamped(rd, 30, 0), Stamped(rd, 60, 1)]);
    var xs := [Stamped(Reading(10, 1, 3, 2), 30, 0), Stamped(Reading(5, 1, 3, 2), 60, 1),
               Stamped(Reading(10, 1, 3, 2), 90, 2)];
    var s1 := Commit(Initial, xs[0].reading, 30, 0);
    var s2 := Commit(s1, xs[1].reading, 60, 1);
    var s3 := Commit(s2, xs[2].reading, 90, 2);
    assert xs[1..][1..] == [xs[2]];
    assert CommitAll(Initial, xs) == s3;
    assert s2.results == [s2.results[0]] && s2.results[0].runs == 0;
    assert s3.results == s2.results + [s3.results[1]] && s3.results[1].runs == 5;
    assert s3.results[..1] == s2.results;
    assert Total(s2.results, RunsCounter) == 0 by {
      assert s2.results[..0] == [];
    }
  }

  // ---------------------------------------------------------------------------------------------
  // The Results getter: a stable sort by frame number
  // ---------------------------------------------------------------------------------------------

  ghost predicate SortedByFrame(rs: seq<BallResult>) {
    forall i, j :: 0 <= i < j < |rs| ==> rs[i].frameNumber <= rs[j].frameNumber
  }

  /** The results carrying frame number n, in order. */
  function WithFrame(rs: seq<BallResult>, n: int): seq<BallResult> {
    if rs == [] then []
    else WithFrame(rs[..|rs| - 1], n) + (if rs[|rs| - 1].frameNumber == n then [rs[|rs| - 1]] else [])
  }

  /** Inserts b after every element whose frame number is at most b's. */
  function InsertByFrame(rs: seq<BallResult>, b: BallResult): (r: seq<BallResult>)
    requires SortedByFrame(rs)
    ensures SortedByFrame(r)
    ensures multiset(r) == multiset(rs) + multiset{b}
  {
    if rs == [] || rs[|rs| - 1].frameNumber <= b.frameNumber then
      rs + [b]
    else
      var init, last := rs[..|rs| - 1], rs[|rs| - 1];
      var r' := InsertByFrame(init, b);
      assert rs == init + [last];
      BoundedByLast(rs, b, r');
      AppendKeepsSorted(r', last);
      r' + [last]
  }

  /** A permutation of all but the last element of a sorted list, plus an element smaller than
      that last one, stays at or below it. */
  lemma BoundedByLast(rs: seq<BallResult>, b: BallResult, r': seq<BallResult>)
    requires SortedByFrame(rs) && rs != [] && b.frameNumber < rs[|rs| - 1].frameNumber
    requires multiset(r') == multiset(rs[..|rs| - 1]) + multiset{b}
    ensures forall i :: 0 <= i < |r'| ==> r'[i].frameNumber <= rs[|rs| - 1].frameNumber
  {
    forall i | 0 <= i < |r'| ensures r'[i].frameNumber <= rs[|rs| - 1].frameNumber {
      assert r'[i] in multiset(r');
      if r'[i] != b {
        assert r'[i] in multiset(rs[..|rs| - 1]);
        var j :| 0 <= j < |rs| - 1 && rs[..|rs| - 1][j] == r'[i];
        assert rs[j] == r'[i];
      }
    }
  }

  lemma AppendKeepsSorted(rs: seq<BallResult>, last: BallResult)
    requires SortedByFrame(rs)
    requires forall i :: 0 <= i < |rs| ==> rs[i].frameNumber <= last.frameNumber
    ensures SortedByFrame(rs + [last])
  {
  }

  /** Inserting b adds it to the end of its frame number's group and to no other group. */
  lemma {:induction false} InsertByFrameStable(rs: seq<BallResult>, b: BallResult, n: int)
    requires SortedByFrame(rs)
    ensures WithFrame(InsertByFrame(rs, b), n) == WithFrame(rs, n) + (if b.frameNumber == n then [b] else [])
    decreases |rs|
  {
    var r := InsertByFrame(rs, b);
    if rs == [] || rs[|rs| - 1].frameNumber <= b.frameNumber {
      assert r[..|r| - 1] == rs;
    } else {
      var init, last := rs[..|rs| - 1], rs[|rs| - 1];
      var r' := InsertByFrame(init, b);
      assert r == r' + [last] && r[..|r| - 1] == r' && rs[..|rs| - 1] == init;
      InsertByFrameStable(init, b, n);
      var bs: seq<BallResult> := if b.frameNumber == n then [b] else [];
      var ls: seq<BallResult> := if last.frameNumber == n then [last] else [];
      assert WithFrame(r, n) == WithFrame(init, n) + bs + ls;
      assert WithFrame(rs, n) == WithFrame(init, n) + ls;
      if ls != [] {
        assert bs == [];
      }
    }
  }

  /** `OrderBy(r => r.FrameNumber).ToList()`: sorted by frame number, and stable, so the results
      sharing a frame number keep their order; hence a permutation of the input. */
  function SortByFrame(rs: seq<BallResult>): (r: seq<BallResult>)
    ensures SortedByFrame(r)
    ensures multiset(r) == multiset(rs)
    ensures forall n :: WithFrame(r, n) == WithFrame(rs, n)
  {
    if rs == [] then []
    else
      var init, last := rs[..|rs| - 1], rs[|rs| - 1];
      assert rs == init + [last];
      var r := InsertByFrame(SortByFrame(init), last);
      assert forall n :: WithFrame(r, n) == WithFrame(rs, n) by {
        forall n ensures WithFrame(r, n) == WithFrame(rs, n) {
          InsertByFrameStable(SortByFrame(init), last, n);
        }
      }
      r
  }

  // ---------------------------------------------------------------------------------------------
  // The parser object
  // ---------------------------------------------------------------------------------------------

  class GameParser {
    var results: seq<BallResult>
    var lastRuns: Option<int>
    var lastWickets: Option<int>
    var currentOver: int
    var currentBall: int

    function State(): ParserState
      reads this
    {
      ParserState(lastRuns, lastWickets, currentOver, currentBall, results)
    }

    ghost predicate Valid()
      reads this
    {
      Consistent(State())
    }

    constructor ()
      ensures Valid() && State() == Initial
    {
      results := [];
      lastRuns, lastWickets := None, None;
      currentOver, currentBall := 0, 0;
    }

    /** Parses the frame's runs/wickets and over.ball texts and, when both match, records the
        reading. A null `thrown` is a normal return; an exception leaves every field as it was. */
    method ProcessFrameData(frameData: map<string, string>, frameNumber: int, timestamp: Timestamp)
      returns (thrown: Option<Exception>)
      requires Valid()
      modifies this
      ensures Valid()
      ensures Ingest(old(State()), frameData, frameNumber, timestamp) ==
              if thrown.Some? then Throws(thrown.value) else Ok(State())
      ensures thrown.Some? ==> State() == old(State())
    {
      ghost var st := State();
      var score := TryParseScore(Field(frameData, RunsWicketsKey));
      if score.Throws? {
        return Some(score.exception);
      }
      if !score.value.success {
        return None;
      }
      var overs := TryParseOvers(Field(frameData, OversKey));
      if overs.Throws? {
        return Some(overs.exception);
      }
      if !overs.value.success {
        return None;
      }
      RecordReading(score.value.first, score.value.second, overs.value.first, overs.value.second,
                    frameNumber, timestamp);
      IngestKeepsConsistent(st, frameData, frameNumber, timestamp);
      thrown := None;
    }

    /** The locked block of ProcessFrameData: the first reading only seeds the last-seen values,
        every later one appends a result whose deltas are clamped at zero. */
    method RecordReading(runs: int, wickets: int, over: int, ball: int, frameNumber: int, timestamp: Timestamp)
      modifies this
      ensures State() == Commit(old(State()), Reading(runs, wickets, over, ball), frameNumber, timestamp)
    {
      if lastRuns.None? || lastWickets.None? {
        lastRuns, lastWickets := Some(runs), Some(wickets);
        currentOver, currentBall := over, ball;
        return;
      }
      var deltaRuns := Max(0, runs - lastRuns.value);
      var deltaWickets := Max(0, wickets - lastWickets.value);
      results := results + [BallResult(over, ball, deltaRuns, deltaWickets, frameNumber, timestamp, None, None, None, None)];
      lastRuns, lastWickets := Some(runs), Some(wickets);
      currentOver, currentBall := over, ball;
    }

    /** The `Results` getter: a copy sorted stably by frame number; the list itself is untouched. */
    function Results(): (r: seq<BallResult>)
      reads this
      ensures SortedByFrame(r)
      ensures multiset(r) == multiset(results)
      ensures forall n :: WithFrame(r, n) == WithFrame(results, n)
    {
      SortByFrame(results)
    }
  }
}
