/** The simpler extractor: reads every configured region with the score engine or the text
    engine and patches the two score fields when the reading is obviously broken. */
module FrameProcessor {
  import opened Wrappers
  import opened Text
  import opened Regions

  const RunsWicketsLabel := "RunsWickets"
  const OversLabel := "Overs"

  /** The two Tesseract engines: digits, '/', '.' and space for score regions, letters otherwise. */
  datatype Engine = ScoreEngine | TextEngine

  /** A configured region and whether it holds a score. */
  datatype ScoredRect = ScoredRect(isScore: bool, rect: Rect)

  /** What the model does not compute from pixels, for one frame: whether a cut-out region is empty
      and the raw text an engine reads from a region (after the preprocessing that engine's regions
      get). */
  datatype Vision = Vision(isEmpty: Rect -> bool, recognize: (Engine, Rect) -> string)

  /** Score regions go to the score engine, every other region to the text engine. */
  function EngineFor(region: ScoredRect): (e: Engine)
    ensures e == ScoreEngine <==> region.isScore
  {
    if region.isScore then ScoreEngine else TextEngine
  }

  /** The `switch (label)` after the OCR: a runs/wickets reading without '/' but with a '7' (the
      engine's usual misreading of '/') becomes "0/0"; an overs reading without '.' becomes "0.0";
      every other reading is kept as it is. */
  function FixUp(name: string, text: string): (r: string)
    ensures name == RunsWicketsLabel ==> '/' in r || '7' !in r
    ensures name == OversLabel ==> '.' in r
    ensures r != text ==>
              || (name == RunsWicketsLabel && '/' !in text && '7' in text && r == "0/0")
              || (name == OversLabel && '.' !in text && r == "0.0")
    ensures name != RunsWicketsLabel && name != OversLabel ==> r == text
  {
    match name
    case "RunsWickets" => if '/' !in text && '7' in text then "0/0" else text
    case "Overs" => if '.' !in text then "0.0" else text
    case _ => text
  }

  /** Patching twice is patching once: a patched reading is never patched again. */
  lemma FixUpIdempotent(name: string, text: string)
    ensures FixUp(name, FixUp(name, text)) == FixUp(name, text)
  {
    var r := FixUp(name, text);
    if name == RunsWicketsLabel && r == "0/0" {
      assert '/' in r by { assert r[1] == '/'; }
    }
  }

  /** The text stored for a region: its engine's reading, trimmed, then patched by label. It is the
      trimmed reading itself or one of the two substitutes, an overs entry always holds a '.', and
      a runs/wickets entry holds a '/' or no '7'. */
  function LabelText(vision: Vision, name: string, region: ScoredRect): (r: string)
    ensures var read := Trim(vision.recognize(EngineFor(region), region.rect));
            || r == read
            || (name == RunsWicketsLabel && '/' !in read && '7' in read && r == "0/0")
            || (name == OversLabel && '.' !in read && r == "0.0")
    ensures name == OversLabel ==> '.' in r
    ensures name == RunsWicketsLabel ==> '/' in r || '7' !in r
  {
    FixUp(name, Trim(vision.recognize(EngineFor(region), region.rect)))
  }

  /** The loop over the configuration, in dictionary order, as a function of the regions seen. */
  function Collect(frame: Frame, vision: Vision, rois: RoiMap<ScoredRect>): (r: map<string, string>)
    ensures forall name :: name in r <==>
              exists j :: 0 <= j < |rois| && rois[j].key == name && Admitted(rois[j].roi.rect, frame, vision.isEmpty)
    ensures forall j :: 0 <= j < |rois| && Admitted(rois[j].roi.rect, frame, vision.isEmpty) ==>
              r[rois[j].key] == LabelText(vision, rois[j].key, rois[j].roi)
    decreases |rois|
  {
    if rois == [] then map[]
    else
      var init: RoiMap<ScoredRect> := rois[..|rois| - 1];
      var last := rois[|rois| - 1];
      assert forall j :: 0 <= j < |init| ==> init[j] == rois[j];
      var r := Collect(frame, vision, init);
      if Admitted(last.roi.rect, frame, vision.isEmpty) then
        r[last.key := LabelText(vision, last.key, last.roi)]
      else
        r
  }

  /** One more region: the map gains (or overwrites) that region's entry when it passes the bounds
      check and is not empty. */
  lemma CollectStep(frame: Frame, vision: Vision, rois: RoiMap<ScoredRect>, i: nat)
    requires i < |rois|
    ensures var before := Collect(frame, vision, rois[..i]);
            var rect := rois[i].roi.rect;
            Collect(frame, vision, rois[..i + 1]) ==
              if FitsIn(rect, frame) && !vision.isEmpty(rect)
              then before[rois[i].key := FixUp(rois[i].key, Trim(vision.recognize(EngineFor(rois[i].roi), rect)))]
              else before
  {
    var seen: RoiMap<ScoredRect> := rois[..i + 1];
    assert seen[..i] == rois[..i] && seen[i] == rois[i];
  }

  /** `ProcessFrame`: one entry per region that passes the bounds check and is not empty. */
  method ProcessFrame(roiMap: RoiMap<ScoredRect>, frame: Frame, vision: Vision) returns (results: map<string, string>)
    ensures results == Collect(frame, vision, roiMap)
  {
    results := map[];
    for i := 0 to |roiMap|
      invariant UniqueLabels(roiMap[..i]) && results == Collect(frame, vision, roiMap[..i])
    {
      PrefixUnique(roiMap, i + 1);
      var name := roiMap[i].key;
      var roi := roiMap[i].roi.rect;
      CollectStep(frame, vision, roiMap, i);
      if FitsIn(roi, frame) {
        if vision.isEmpty(roi) {
          continue;
        }
        var result := Trim(vision.recognize(EngineFor(roiMap[i].roi), roi));
        result := FixUp(name, result);
        results := results[name := result];
      }
    }
    assert roiMap[..|roiMap|] == roiMap;
  }

  /** Every overs entry of a result holds a '.', and every runs/wickets entry holds a '/' or no '7';
      other labels hold the trimmed reading unchanged. */
  lemma ScoreEntriesPatched(frame: Frame, vision: Vision, roiMap: RoiMap<ScoredRect>, e: Entry<ScoredRect>)
    requires e in roiMap && Admitted(e.roi.rect, frame, vision.isEmpty)
    ensures var r := Collect(frame, vision, roiMap);
            && e.key in r
            && (e.key == OversLabel ==> '.' in r[e.key])
            && (e.key == RunsWicketsLabel ==> '/' in r[e.key] || '7' !in r[e.key])
            && (e.key != OversLabel && e.key != RunsWicketsLabel ==>
                  r[e.key] == Trim(vision.recognize(EngineFor(e.roi), e.roi.rect)))
  {
    var j :| 0 <= j < |roiMap| && roiMap[j] == e;
  }
}
