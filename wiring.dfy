/** How the extractors' label-to-text maps meet the score accumulator: the two patched readings
    parse, the patches only ever replace readings the accumulator would reject, and the
    OcrProcessor's over.ball label is not the key the accumulator reads. */
module Wiring {
  import opened Wrappers
  import opened Patterns
  import opened Regions
  import GameParser
  import FrameProcessor
  import OcrProcessor

  /** What the accumulator reads under a label from a FrameProcessor result: the stored text of the
      region configured under that label when the region is admitted, and nothing otherwise. */
  lemma CollectField(frame: Frame, vision: FrameProcessor.Vision, roiMap: RoiMap<FrameProcessor.ScoredRect>, name: string)
    ensures GameParser.Field(FrameProcessor.Collect(frame, vision, roiMap), name) ==
              match Find(roiMap, name)
              case Some(region) =>
                if Admitted(region.rect, frame, vision.isEmpty)
                then Some(FrameProcessor.LabelText(vision, name, region))
                else None
              case None => None
  {
    match Find(roiMap, name)
    case Some(region) =>
      var j :| 0 <= j < |roiMap| && roiMap[j] == Entry(name, region);
    case None =>
  }

  /** The FrameProcessor feeds the accumulator: the runs/wickets and overs fields it reads are the
      stored texts of the "RunsWickets" and "Overs" regions whenever those are configured and
      admitted, and absent otherwise. */
  lemma FrameProcessorFeedsParser(frame: Frame, vision: FrameProcessor.Vision, roiMap: RoiMap<FrameProcessor.ScoredRect>)
    ensures var r := FrameProcessor.Collect(frame, vision, roiMap);
            GameParser.Field(r, GameParser.RunsWicketsKey) ==
              match Find(roiMap, FrameProcessor.RunsWicketsLabel)
              case Some(region) =>
                if Admitted(region.rect, frame, vision.isEmpty)
                then Some(FrameProcessor.LabelText(vision, FrameProcessor.RunsWicketsLabel, region))
                else None
              case None => None
    ensures var r := FrameProcessor.Collect(frame, vision, roiMap);
            GameParser.Field(r, GameParser.OversKey) ==
              match Find(roiMap, FrameProcessor.OversLabel)
              case Some(region) =>
                if Admitted(region.rect, frame, vision.isEmpty)
                then Some(FrameProcessor.LabelText(vision, FrameProcessor.OversLabel, region))
                else None
              case None => None
  {
    CollectField(frame, vision, roiMap, FrameProcessor.RunsWicketsLabel);
    CollectField(frame, vision, roiMap, FrameProcessor.OversLabel);
  }

  /** A zero, the separator and a zero: the only occurrence covers the whole text. */
  lemma ZeroSepZeroMatches(pat: Pattern, s: string)
    requires WellFormed(pat) && s == ['0', pat.sep, '0']
    ensures Match(pat, s, 0) == Some(Captures("0", "0"))
  {
    assert Occurs(pat, s, 0, 1, 1, 2, 3);
    MatchMeaning(pat, s);
    var a, b, p, c, d :| RegexMatch(pat, s, a, b, p, c, d) && Match(pat, s, 0).value == Captures(s[a..b], s[c..d]);
    assert s[0..1] == "0" && s[2..3] == "0";
  }

  /** The substitutes "0/0" and "0.0" parse as zero runs for zero wickets and over 0, ball 0. */
  lemma SubstitutesParse()
    ensures GameParser.TryParseScore(Some("0/0")) == Ok(GameParser.TryResult(true, 0, 0))
    ensures GameParser.TryParseOvers(Some("0.0")) == Ok(GameParser.TryResult(true, 0, 0))
  {
    ZeroSepZeroMatches(ScorePattern, "0/0");
    ZeroSepZeroMatches(OversPattern, "0.0");
    assert Text.DecimalValue("0") == 0 by { assert "0"[..0] == []; }
  }

  /** The runs/wickets patch replaces only a reading that TryParseScore rejects (it has no '/'),
      and what it puts in its place parses. */
  lemma ScorePatchOnlyRejected(text: string)
    ensures FrameProcessor.FixUp(FrameProcessor.RunsWicketsLabel, text) != text ==>
              && GameParser.TryParseScore(Some(text)) == Ok(GameParser.TryResult(false, 0, 0))
              && GameParser.TryParseScore(Some(FrameProcessor.FixUp(FrameProcessor.RunsWicketsLabel, text))) ==
                 Ok(GameParser.TryResult(true, 0, 0))
  {
    if FrameProcessor.FixUp(FrameProcessor.RunsWicketsLabel, text) != text {
      SeparatorNeeded(ScorePattern, text);
      SubstitutesParse();
    }
  }

  /** The overs patch replaces only a reading that TryParseOvers rejects (it has no '.'), and what
      it puts in its place parses. */
  lemma OversPatchOnlyRejected(text: string)
    ensures FrameProcessor.FixUp(FrameProcessor.OversLabel, text) != text ==>
              && GameParser.TryParseOvers(Some(text)) == Ok(GameParser.TryResult(false, 0, 0))
              && GameParser.TryParseOvers(Some(FrameProcessor.FixUp(FrameProcessor.OversLabel, text))) ==
                 Ok(GameParser.TryResult(true, 0, 0))
  {
    if FrameProcessor.FixUp(FrameProcessor.OversLabel, text) != text {
      SeparatorNeeded(OversPattern, text);
      SubstitutesParse();
    }
  }

  /** The patches do not make every stored reading parse: "." passes the overs patch untouched and
      "12" the runs/wickets patch, and the accumulator rejects both. */
  lemma PatchedReadingsCanStillFail()
    ensures FrameProcessor.FixUp(FrameProcessor.OversLabel, ".") == "."
    ensures GameParser.TryParseOvers(Some(".")) == Ok(GameParser.TryResult(false, 0, 0))
    ensures FrameProcessor.FixUp(FrameProcessor.RunsWicketsLabel, "12") == "12"
    ensures GameParser.TryParseScore(Some("12")) == Ok(GameParser.TryResult(false, 0, 0))
  {
    assert !Matches(OversPattern, ".");
    MatchMeaning(OversPattern, ".");
    SeparatorNeeded(ScorePattern, "12");
  }

  /** The OcrProcessor stores the over.ball reading under "OverWithBall"; its result has an "Overs"
      entry only when the configuration itself has a region labelled "Overs". */
  lemma {:induction false} OcrOversNeedsOversRegion(roiMap: RoiMap<Rect>, frame: Frame, vision: OcrProcessor.Vision)
    requires OcrProcessor.Extract(roiMap, frame, vision).Ok?
    requires GameParser.OversKey in OcrProcessor.Extract(roiMap, frame, vision).value
    ensures exists e :: e in roiMap && e.key == GameParser.OversKey
  {
    var teamRoi := Find(roiMap, OcrProcessor.BattingTeamKey).value;
    var first := OcrProcessor.AfterRoi(frame, vision, teamRoi, OcrProcessor.BattingTeamKey, map[]);
    var rois := OcrProcessor.SecondPass(roiMap);
    assert GameParser.OversKey !in first;
    OcrProcessor.RouteAllKeys(frame, vision, rois, first, GameParser.OversKey);
    var j :| 0 <= j < |rois| && GameParser.OversKey == OcrProcessor.RouteKey(rois[j].key, vision.hasArrow(rois[j].roi));
    assert rois[j] in roiMap;
  }

  /** Fed with an OcrProcessor result from a configuration without an "Overs" region, the
      accumulator never records anything: each call either returns with the state unchanged or
      throws the overflow of an over-long runs/wickets number. */
  lemma OcrResultsNeverRecorded(roiMap: RoiMap<Rect>, frame: Frame, vision: OcrProcessor.Vision,
                                st: GameParser.ParserState, frameNumber: int, timestamp: GameParser.Timestamp)
    requires OcrProcessor.Extract(roiMap, frame, vision).Ok?
    requires forall e :: e in roiMap ==> e.key != GameParser.OversKey
    ensures var out := GameParser.Ingest(st, OcrProcessor.Extract(roiMap, frame, vision).value, frameNumber, timestamp);
            out == Ok(st) || out == Throws(OverflowException)
  {
    var m := OcrProcessor.Extract(roiMap, frame, vision).value;
    if GameParser.OversKey in m {
      OcrOversNeedsOversRegion(roiMap, frame, vision);
    }
    assert GameParser.Field(m, GameParser.OversKey) == None;
  }
}
