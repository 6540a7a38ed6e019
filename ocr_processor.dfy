/** The scoreboard extractor: reads the batting team first, gives up on the frame unless it looks
    like a three-letter team code, then reads every other configured region, routing the two
    batter regions by the on-strike arrow. */
module OcrProcessor {
  import opened Wrappers
  import opened Text
  import opened Regions

  const BattingTeamKey := "BattingTeam"
  const Batter1Key := "Batter1"
  const Batter2Key := "Batter2"

  /** The four Tesseract engines, each with its own character whitelist. */
  datatype Engine = NameEngine | TeamEngine | RunWicketEngine | OverBallEngine

  /** What the model does not compute from pixels, for one frame: whether the cut-out region is
      empty, the raw text an engine reads from a region, and whether the left edge of a region
      shows the on-strike arrow. */
  datatype Vision = Vision(isEmpty: Rect -> bool, recognize: (Engine, Rect) -> string, hasArrow: Rect -> bool)

  /** `IsValidTeamName`: three characters, at least one letter, and no lower-case letter. */
  function IsValidTeamName(name: string): (b: bool)
    ensures b <==> && |name| == 3
                   && (exists k :: 0 <= k < |name| && IsLetter(name[k]))
                   && (forall k :: 0 <= k < |name| && IsLetter(name[k]) ==> IsUpper(name[k]))
  {
    |name| == 3 && Any(name, IsLetter) && All(name, c => !IsLetter(c) || IsUpper(c))
  }

  lemma TeamNameExamples()
    ensures IsValidTeamName("IND") && IsValidTeamName("A12")
    ensures !IsValidTeamName("Ind") && !IsValidTeamName("123") && !IsValidTeamName("INDI")
  {
    assert IsLetter("A12"[0]);
    assert IsLetter("Ind"[1]) && !IsUpper("Ind"[1]);
    assert IsValidTeamName("IND") by { assert IsLetter("IND"[0]); }
  }

  /** The engine the `label switch` picks: one per score field and one for the team, the name
      engine for everything else. */
  function EngineFor(tag: string): (e: Engine)
    ensures e == RunWicketEngine <==> tag == "RunsWickets"
    ensures e == OverBallEngine <==> tag == "OverWithBall"
    ensures e == TeamEngine <==> tag == BattingTeamKey
    ensures e == NameEngine <==> tag !in {"RunsWickets", "OverWithBall", BattingTeamKey}
  {
    match tag
    case "RunsWickets" => RunWicketEngine
    case "OverWithBall" => OverBallEngine
    case "BattingTeam" => TeamEngine
    case _ => NameEngine
  }

  predicate IsBatter(tag: string) {
    tag == Batter1Key || tag == Batter2Key
  }

  /** The key a region's text is stored under: either batter region goes to "Batter1" when it
      shows the arrow and to "Batter2" otherwise; any other region keeps its label. */
  function RouteKey(tag: string, arrow: bool): (k: string)
    ensures IsBatter(tag) ==> IsBatter(k) && (k == Batter1Key <==> arrow)
    ensures !IsBatter(tag) ==> k == tag
  {
    if IsBatter(tag) then (if arrow then Batter1Key else Batter2Key) else tag
  }

  /** The trimmed text the engine picked by the label reads from the region: a slice of the raw
      reading with only white space cut off either end. */
  function TextOf(vision: Vision, roi: Rect, tag: string): (r: string)
    ensures var raw := vision.recognize(EngineFor(tag), roi);
            exists i, j :: 0 <= i <= j <= |raw| && r == raw[i..j] && AllIn(raw, 0, i, IsSpace) && AllIn(raw, j, |raw|, IsSpace)
    ensures r == [] || (!IsSpace(r[0]) && !IsSpace(r[|r| - 1]))
  {
    Trim(vision.recognize(EngineFor(tag), roi))
  }

  /** The private `ProcessFrame` overload, as a function of the results map it writes into:
      an admitted region stores its trimmed text under its routed key and touches nothing else;
      any other region leaves the map unchanged. */
  function AfterRoi(frame: Frame, vision: Vision, roi: Rect, tag: string, results: map<string, string>)
    : (r: map<string, string>)
    ensures !Admitted(roi, frame, vision.isEmpty) ==> r == results
    ensures Admitted(roi, frame, vision.isEmpty) ==>
              var key := RouteKey(tag, vision.hasArrow(roi));
              key in r && r[key] == TextOf(vision, roi, tag)
    ensures forall k :: k != RouteKey(tag, vision.hasArrow(roi)) ==>
              (k in r <==> k in results) && (k in r ==> r[k] == results[k])
  {
    if Admitted(roi, frame, vision.isEmpty) then
      results[RouteKey(tag, vision.hasArrow(roi)) := TextOf(vision, roi, tag)]
    else
      results
  }

  /** The private `ProcessFrame` overload: writes at most one entry into `results`. */
  method ProcessRoi(frame: Frame, vision: Vision, roi: Rect, tag: string, results: map<string, string>)
    returns (updated: map<string, string>)
    ensures updated == AfterRoi(frame, vision, roi, tag, results)
  {
    updated := results;
    if FitsIn(roi, frame) {
      if vision.isEmpty(roi) {
        return;
      }
      var ocrResult := Trim(vision.recognize(EngineFor(tag), roi));
      if IsBatter(tag) {
        if vision.hasArrow(roi) {
          updated := updated[Batter1Key := ocrResult];
        } else {
          updated := updated[Batter2Key := ocrResult];
        }
      } else {
        updated := updated[tag := ocrResult];
      }
    }
  }

  /** `_roiMap.Where(x => !x.Key.StartsWith("BattingTeam")).ToDictionary(...)`: the entries whose
      label does not start with "BattingTeam". */
  function SecondPass(roiMap: RoiMap<Rect>): (r: RoiMap<Rect>)
    ensures forall e :: e in r <==> e in roiMap && !(BattingTeamKey <= e.key)
    decreases |roiMap|
  {
    if roiMap == [] then []
    else
      var init: RoiMap<Rect> := roiMap[..|roiMap| - 1];
      var last := roiMap[|roiMap| - 1];
      assert roiMap == init + [last];
      var r := SecondPass(init);
      if BattingTeamKey <= last.key then r
      else
        assert forall e :: e in r ==> e.key != last.key by {
          forall e | e in r ensures e.key != last.key {
            var j :| 0 <= j < |init| && init[j] == e;
            assert roiMap[j] == e;
          }
        }
        r + [last]
  }

  /** Of two entries of `sub`, the one that comes first in `sub` comes first in `whole`. */
  predicate InOrder(sub: seq<Entry<Rect>>, whole: seq<Entry<Rect>>) {
    forall i, j, i', j' ::
      (0 <= i < j < |sub| && 0 <= i' < |whole| && 0 <= j' < |whole| &&
       whole[i'] == sub[i] && whole[j'] == sub[j]) ==> i' < j'
  }

  /** Appending a new last entry to the configuration keeps the order of a selection of its
      earlier entries, with or without that entry appended to the selection. */
  lemma InOrderExtend(sub: seq<Entry<Rect>>, init: seq<Entry<Rect>>, last: Entry<Rect>)
    requires UniqueLabels(init + [last])
    requires InOrder(sub, init) && forall e :: e in sub ==> e in init
    ensures InOrder(sub, init + [last]) && InOrder(sub + [last], init + [last])
  {
    var whole := init + [last];
    var sub' := sub + [last];
    forall i, j, i', j' | 0 <= i < j < |sub'| && 0 <= i' < |whole| && 0 <= j' < |whole| &&
                          whole[i'] == sub'[i] && whole[j'] == sub'[j]
      ensures i' < j'
    {
      assert sub'[i] == sub[i] && sub[i] in init;
      var n :| 0 <= n < |init| && init[n] == sub[i];
      assert whole[n] == sub[i] && n == i';
      if j < |sub| {
        assert sub'[j] == sub[j] && sub[j] in init;
        var m :| 0 <= m < |init| && init[m] == sub[j];
        assert whole[m] == sub[j] && m == j';
        assert init[i'] == sub[i] && init[j'] == sub[j];
      } else {
        assert whole[j'] == whole[|init|];
      }
    }
    assert forall i :: 0 <= i < |sub| ==> sub'[i] == sub[i];
  }

  /** The filter keeps the dictionary order. */
  lemma {:induction false} SecondPassKeepsOrder(roiMap: RoiMap<Rect>)
    ensures InOrder(SecondPass(roiMap), roiMap)
    decreases |roiMap|
  {
    if roiMap != [] {
      var init: RoiMap<Rect> := roiMap[..|roiMap| - 1];
      var last := roiMap[|roiMap| - 1];
      assert roiMap == init + [last];
      SecondPassKeepsOrder(init);
      InOrderExtend(SecondPass(init), init, last);
    }
  }

  /** The loop over the second-pass regions, in dictionary order. */
  function RouteAll(frame: Frame, vision: Vision, rois: seq<Entry<Rect>>, results: map<string, string>)
    : (r: map<string, string>)
    ensures forall k :: k in results ==> k in r
    decreases |rois|
  {
    if rois == [] then results
    else
      var last := rois[|rois| - 1];
      AfterRoi(frame, vision, last.roi, last.key, RouteAll(frame, vision, rois[..|rois| - 1], results))
  }

  /** The public `ProcessFrame`, as a function of the configuration and the frame. */
  function Extract(roiMap: RoiMap<Rect>, frame: Frame, vision: Vision): (r: Outcome<map<string, string>>)
    ensures r.Throws? ==> r.exception == KeyNotFoundException(BattingTeamKey)
    ensures r.Ok? && r.value != map[] ==> BattingTeamKey in r.value
  {
    match Find(roiMap, BattingTeamKey)
    case None => Throws(KeyNotFoundException(BattingTeamKey))
    case Some(teamRoi) =>
      var first := AfterRoi(frame, vision, teamRoi, BattingTeamKey, map[]);
      if BattingTeamKey !in first then Throws(KeyNotFoundException(BattingTeamKey))
      else if !IsValidTeamName(first[BattingTeamKey]) then Ok(map[])
      else Ok(RouteAll(frame, vision, SecondPass(roiMap), first))
  }

  /** The public `ProcessFrame`: the team gate, then one pass over the other regions. */
  method ProcessFrame(roiMap: RoiMap<Rect>, frame: Frame, vision: Vision) returns (r: Outcome<map<string, string>>)
    ensures r == Extract(roiMap, frame, vision)
  {
    var results: map<string, string> := map[];
    var teamRoi := Find(roiMap, BattingTeamKey);
    if teamRoi.None? {
      return Throws(KeyNotFoundException(BattingTeamKey));
    }
    results := ProcessRoi(frame, vision, teamRoi.value, BattingTeamKey, results);
    if BattingTeamKey !in results {
      return Throws(KeyNotFoundException(BattingTeamKey));
    }
    if !IsValidTeamName(results[BattingTeamKey]) {
      return Ok(map[]);
    }
    ghost var first := results;
    var rois := SecondPass(roiMap);
    for i := 0 to |rois|
      invariant results == RouteAll(frame, vision, rois[..i], first)
    {
      assert rois[..i + 1][..i] == rois[..i];
      results := ProcessRoi(frame, vision, rois[i].roi, rois[i].key, results);
    }
    assert rois[..|rois|] == rois;
    return Ok(results);
  }

  // ---------------------------------------------------------------------------------------------
  // What the pass over the regions writes
  // ---------------------------------------------------------------------------------------------

  /** A key that no region routes to keeps its entry (or its absence). */
  lemma {:induction false} RouteAllUntouched(frame: Frame, vision: Vision, rois: seq<Entry<Rect>>,
                                             results: map<string, string>, k: string)
    requires forall j :: 0 <= j < |rois| ==> k != RouteKey(rois[j].key, vision.hasArrow(rois[j].roi))
    ensures var r := RouteAll(frame, vision, rois, results);
            (k in r <==> k in results) && (k in r ==> r[k] == results[k])
    decreases |rois|
  {
    if rois != [] {
      var init := rois[..|rois| - 1];
      assert forall j :: 0 <= j < |init| ==> init[j] == rois[j];
      RouteAllUntouched(frame, vision, init, results, k);
    }
  }

  /** Every key the pass adds comes from an admitted region routed to it. */
  lemma {:induction false} RouteAllKeys(frame: Frame, vision: Vision, rois: seq<Entry<Rect>>,
                                        results: map<string, string>, k: string)
    requires k in RouteAll(frame, vision, rois, results) && k !in results
    ensures exists j :: 0 <= j < |rois| && Admitted(rois[j].roi, frame, vision.isEmpty) &&
                        k == RouteKey(rois[j].key, vision.hasArrow(rois[j].roi))
    decreases |rois|
  {
    var init := rois[..|rois| - 1];
    var last := rois[|rois| - 1];
    if k in RouteAll(frame, vision, init, results) {
      RouteAllKeys(frame, vision, init, results, k);
      var j :| 0 <= j < |init| && Admitted(init[j].roi, frame, vision.isEmpty) &&
               k == RouteKey(init[j].key, vision.hasArrow(init[j].roi));
      assert init[j] == rois[j];
    } else {
      assert Admitted(last.roi, frame, vision.isEmpty) && k == RouteKey(last.key, vision.hasArrow(last.roi));
    }
  }

  /** A region that is not a batter region is processed exactly once: its label ends up holding
      its own trimmed text when the region is admitted, and is left as it was otherwise. */
  lemma {:induction false} RouteAllOwnLabel(frame: Frame, vision: Vision, rois: RoiMap<Rect>,
                                            results: map<string, string>, j: nat)
    requires j < |rois| && !IsBatter(rois[j].key)
    ensures var r := RouteAll(frame, vision, rois, results);
            var e := rois[j];
            && (Admitted(e.roi, frame, vision.isEmpty) ==> e.key in r && r[e.key] == TextOf(vision, e.roi, e.key))
            && (!Admitted(e.roi, frame, vision.isEmpty) ==>
                  (e.key in r <==> e.key in results) && (e.key in r ==> r[e.key] == results[e.key]))
    decreases |rois|
  {
    var e := rois[j];
    var init: RoiMap<Rect> := rois[..|rois| - 1];
    var last := rois[|rois| - 1];
    if j == |rois| - 1 {
      assert forall i :: 0 <= i < |init| ==> init[i] == rois[i];
      RouteAllUntouched(frame, vision, init, results, e.key);
    } else {
      assert init[j] == e;
      RouteAllOwnLabel(frame, vision, init, results, j);
      assert last.key != e.key;
    }
  }

  /** The region is admitted and its text is stored under `k`. */
  predicate RoutesTo(frame: Frame, vision: Vision, e: Entry<Rect>, k: string) {
    Admitted(e.roi, frame, vision.isEmpty) && RouteKey(e.key, vision.hasArrow(e.roi)) == k
  }

  /** A key is in the result of the pass exactly when it was there before or some region is routed
      to it. */
  lemma {:induction false} RouteAllMembers(frame: Frame, vision: Vision, rois: seq<Entry<Rect>>,
                                           results: map<string, string>, k: string)
    ensures k in RouteAll(frame, vision, rois, results) <==>
              k in results || exists j :: 0 <= j < |rois| && RoutesTo(frame, vision, rois[j], k)
    decreases |rois|
  {
    if rois != [] {
      var init := rois[..|rois| - 1];
      assert forall j :: 0 <= j < |init| ==> init[j] == rois[j];
      RouteAllMembers(frame, vision, init, results, k);
    }
  }

  /** The region that decides a key's value is the last one routed to it: a later region overwrites
      an earlier one. */
  lemma {:induction false} RouteAllLastWriter(frame: Frame, vision: Vision, rois: seq<Entry<Rect>>,
                                              results: map<string, string>, k: string, j: nat)
    requires j < |rois| && RoutesTo(frame, vision, rois[j], k)
    requires forall j' :: j < j' < |rois| ==> !RoutesTo(frame, vision, rois[j'], k)
    ensures var r := RouteAll(frame, vision, rois, results);
            k in r && r[k] == TextOf(vision, rois[j].roi, rois[j].key)
    decreases |rois|
  {
    var init := rois[..|rois| - 1];
    var last := rois[|rois| - 1];
    if j < |init| {
      assert !RoutesTo(frame, vision, last, k);
      assert forall j' :: j < j' < |init| ==> init[j'] == rois[j'];
      RouteAllLastWriter(frame, vision, init, results, k, j);
    }
  }

  // ---------------------------------------------------------------------------------------------
  // The public ProcessFrame
  // ---------------------------------------------------------------------------------------------

  /** The team gate: a configuration without a BattingTeam region, or a team region that is out
      of bounds or empty, makes the `results["BattingTeam"]` or `_roiMap["BattingTeam"]` lookup throw;
      an implausible team name empties the whole result. */
  lemma TeamGate(roiMap: RoiMap<Rect>, frame: Frame, vision: Vision)
    ensures (forall j :: 0 <= j < |roiMap| ==> roiMap[j].key != BattingTeamKey) ==>
              Extract(roiMap, frame, vision) == Throws(KeyNotFoundException(BattingTeamKey))
    ensures forall j :: 0 <= j < |roiMap| && roiMap[j].key == BattingTeamKey ==>
              var team := roiMap[j].roi;
              && (!Admitted(team, frame, vision.isEmpty) ==>
                    Extract(roiMap, frame, vision) == Throws(KeyNotFoundException(BattingTeamKey)))
              && (Admitted(team, frame, vision.isEmpty) && !IsValidTeamName(TextOf(vision, team, BattingTeamKey)) ==>
                    Extract(roiMap, frame, vision) == Ok(map[]))
  {
    forall j | 0 <= j < |roiMap| && roiMap[j].key == BattingTeamKey
      ensures Find(roiMap, BattingTeamKey) == Some(roiMap[j].roi)
    {
      var i :| 0 <= i < |roiMap| && roiMap[i] == Entry(BattingTeamKey, Find(roiMap, BattingTeamKey).value);
      assert i == j;
    }
  }

  /** A non-empty result holds a valid team name under "BattingTeam", the text of the team region;
      no other region can overwrite it. */
  lemma {:induction false} NonEmptyResultHasTeam(roiMap: RoiMap<Rect>, frame: Frame, vision: Vision)
    requires Extract(roiMap, frame, vision).Ok? && Extract(roiMap, frame, vision).value != map[]
    ensures var m := Extract(roiMap, frame, vision).value;
            && BattingTeamKey in m && IsValidTeamName(m[BattingTeamKey])
            && exists j :: 0 <= j < |roiMap| && roiMap[j].key == BattingTeamKey &&
                           m[BattingTeamKey] == TextOf(vision, roiMap[j].roi, BattingTeamKey)
  {
    var teamRoi := Find(roiMap, BattingTeamKey).value;
    var first := AfterRoi(frame, vision, teamRoi, BattingTeamKey, map[]);
    var rois := SecondPass(roiMap);
    forall i | 0 <= i < |rois| ensures BattingTeamKey != RouteKey(rois[i].key, vision.hasArrow(rois[i].roi)) {
      assert rois[i] in rois;
    }
    RouteAllUntouched(frame, vision, rois, first, BattingTeamKey);
  }

  /** Once the team gate is passed, every other region whose label neither starts with
      "BattingTeam" nor names a batter appears in the result exactly when it is admitted, holding
      its own trimmed text. */
  lemma OtherLabels(roiMap: RoiMap<Rect>, frame: Frame, vision: Vision, e: Entry<Rect>)
    requires Extract(roiMap, frame, vision).Ok? && Extract(roiMap, frame, vision).value != map[]
    requires e in roiMap && !(BattingTeamKey <= e.key) && !IsBatter(e.key)
    ensures var m := Extract(roiMap, frame, vision).value;
            && (e.key in m <==> Admitted(e.roi, frame, vision.isEmpty))
            && (e.key in m ==> m[e.key] == TextOf(vision, e.roi, e.key))
  {
    var teamRoi := Find(roiMap, BattingTeamKey).value;
    var first := AfterRoi(frame, vision, teamRoi, BattingTeamKey, map[]);
    var rois := SecondPass(roiMap);
    var j :| 0 <= j < |rois| && rois[j] == e;
    assert e.key != BattingTeamKey;
    RouteAllOwnLabel(frame, vision, rois, first, j);
  }

  /** A batter region that is admitted and shows the arrow exactly when `k` is "Batter1". */
  predicate BatterFor(frame: Frame, vision: Vision, e: Entry<Rect>, k: string) {
    IsBatter(e.key) && Admitted(e.roi, frame, vision.isEmpty) && vision.hasArrow(e.roi) == (k == Batter1Key)
  }

  /** The `j`-th region is the last batter region for `k` in `rois`. */
  predicate LastBatterFor(frame: Frame, vision: Vision, rois: seq<Entry<Rect>>, j: int, k: string) {
    && 0 <= j < |rois| && BatterFor(frame, vision, rois[j], k)
    && forall j' :: j < j' < |rois| ==> !BatterFor(frame, vision, rois[j'], k)
  }

  /** The batter keys in the pass over the regions, starting from a map without them. */
  lemma RouteAllBatter(frame: Frame, vision: Vision, rois: seq<Entry<Rect>>, first: map<string, string>, k: string)
    requires k == Batter1Key || k == Batter2Key
    requires k !in first
    ensures k in RouteAll(frame, vision, rois, first) <==>
              exists j :: 0 <= j < |rois| && BatterFor(frame, vision, rois[j], k)
    ensures forall j :: LastBatterFor(frame, vision, rois, j, k) ==>
              && k in RouteAll(frame, vision, rois, first)
              && RouteAll(frame, vision, rois, first)[k] == TextOf(vision, rois[j].roi, rois[j].key)
  {
    forall j | 0 <= j < |rois|
      ensures RoutesTo(frame, vision, rois[j], k) <==> BatterFor(frame, vision, rois[j], k)
    {
    }
    RouteAllMembers(frame, vision, rois, first, k);
    if k in RouteAll(frame, vision, rois, first) {
      var j :| 0 <= j < |rois| && RoutesTo(frame, vision, rois[j], k);
      assert BatterFor(frame, vision, rois[j], k);
    }
    forall j | LastBatterFor(frame, vision, rois, j, k)
      ensures k in RouteAll(frame, vision, rois, first)
      ensures RouteAll(frame, vision, rois, first)[k] == TextOf(vision, rois[j].roi, rois[j].key)
    {
      RouteAllLastWriter(frame, vision, rois, first, k, j);
    }
  }

  /** Once the team gate is passed, "Batter1" (or "Batter2") is in the result exactly when some
      batter region is admitted with (or without) the arrow, and it holds the text of the last such
      region in dictionary order: the later region overwrites the earlier. Two arrowed batter
      regions thus leave no "Batter2" and only the second one's name under "Batter1". */
  lemma BatterKeys(roiMap: RoiMap<Rect>, frame: Frame, vision: Vision, k: string)
    requires Extract(roiMap, frame, vision).Ok? && Extract(roiMap, frame, vision).value != map[]
    requires k == Batter1Key || k == Batter2Key
    ensures k in Extract(roiMap, frame, vision).value <==>
              exists j :: 0 <= j < |SecondPass(roiMap)| && BatterFor(frame, vision, SecondPass(roiMap)[j], k)
    ensures forall j :: LastBatterFor(frame, vision, SecondPass(roiMap), j, k) ==>
              && k in Extract(roiMap, frame, vision).value
              && Extract(roiMap, frame, vision).value[k] == TextOf(vision, SecondPass(roiMap)[j].roi, SecondPass(roiMap)[j].key)
  {
    var teamRoi := Find(roiMap, BattingTeamKey).value;
    var first := AfterRoi(frame, vision, teamRoi, BattingTeamKey, map[]);
    assert Extract(roiMap, frame, vision).value == RouteAll(frame, vision, SecondPass(roiMap), first);
    RouteAllBatter(frame, vision, SecondPass(roiMap), first, k);
    assert k in RouteAll(frame, vision, SecondPass(roiMap), first) <==>
              exists j :: 0 <= j < |SecondPass(roiMap)| && BatterFor(frame, vision, SecondPass(roiMap)[j], k);
    assert k in Extract(roiMap, frame, vision).value <==>
              exists j :: 0 <= j < |SecondPass(roiMap)| && BatterFor(frame, vision, SecondPass(roiMap)[j], k);
  }
}
