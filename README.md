# cricket-ocr: scoreboard extraction and score accumulation, in Dafny

This project models the three core classes of cricket-ocr. The program reads a cricket broadcast
frame by frame, cuts configured regions of interest (ROIs) out of each frame, reads them with OCR,
and turns the readings into a list of per-frame results.

- **GameParser** (`game_parser.dfy`, with `patterns.dfy` for its two regular expressions) is the
  score accumulator. `ProcessFrameData` parses the `"RunsWickets"` text with `(\d+)\s*/\s*(\d+)`
  and the `"Overs"` text with `(\d+)\.(\d+)`. It returns silently when either pattern is absent.
  Otherwise, under the lock, the first accepted reading only seeds the last-seen runs, wickets,
  over and ball. Every later reading appends a `BallResult` whose runs and wickets are the changes
  since the last reading, clamped at zero. The `Results` getter returns a copy sorted stably by
  frame number. The class keeps its five fields; `ProcessFrameData` is proved against `Ingest`,
  a function of the parser state.
- **OcrProcessor** (`ocr_processor.dfy`) is the extractor with four engines. It reads the
  `"BattingTeam"` region first. When the region's text is not a plausible three-character team
  code, it returns an empty map. Otherwise it reads every region whose label does not start with
  "BattingTeam". Each region is read only if it passes the bounds check and is not empty. Its
  engine depends on the label. Its trimmed text is stored under its label, except that both batter
  regions store under "Batter1" when the on-strike arrow is visible and under "Batter2" otherwise.
- **FrameProcessor** (`frame_processor.dfy`) is the extractor with two engines. It reads every
  region with the score engine or the text engine. A runs/wickets reading without '/' but with a
  '7' becomes "0/0". An overs reading without '.' becomes "0.0".
- `wiring.dfy` states how the extractors' output meets the accumulator.

Shared pieces:
- `wrappers.dfy` holds `Option` and `Outcome`. `Outcome` models a call that may throw
  (`OverflowException` from `int.Parse`, `KeyNotFoundException` from a dictionary indexer).
- `text.dfy` holds ASCII character classes, `Trim`, LINQ `Any`/`All`, and decimal values.
- `regions.dfy` holds 32-bit `int` with wrap-around, `Rect`, the frame size, the bounds check,
  and the label-to-region dictionaries. A dictionary is a sequence of entries with unique labels,
  in enumeration order.

The pixel work is not modelled. One frame's worth of it is a `Vision` value with three parts:
- whether a cut-out region is empty;
- the raw text an engine reads from a region;
- for OcrProcessor, whether the arrow is visible.

All of these are parameters, so every property holds for any OCR outcome.

The ball-boundary guard at GameParser.cs:40 is commented out, so the accumulator has no
de-duplication of repeated readings of one ball, no retroactive wicket amendment and no innings
reset. Every accepted reading after the first appends a result, which `NoDedupAndMisreadOvercount`
shows.

## Model

| member | source | states |
|---|---|---|
| Text.Trim | OcrProcessor.cs:96 | `string.Trim()`: the result is a contiguous slice of the input with only white space cut from both ends, and it neither starts nor ends with white space |
| Text.Any | OcrProcessor.cs:173 | LINQ `Any`: true exactly when some character satisfies the predicate |
| Text.All | OcrProcessor.cs:174 | LINQ `All`: true exactly when every character satisfies the predicate |
| Text.DecimalValueBound | GameParser.cs:69-70 | a string of n digits has a value below 10^n |
| Regions.WrappingAdd | OcrProcessor.cs:59 | `roi.X + roi.Width` on C# `int`: congruent to the true sum modulo 2^32, and equal to it when the sum fits |
| Regions.FitsIn | OcrProcessor.cs:59 | when neither far edge overflows a C# `int`, the bounds check passes exactly when the region's right edge is within the frame's width and its bottom edge within its height |
| Regions.FitsInWraps | OcrProcessor.cs:59 | with overflow the bounds check lets through a region far outside the frame: x = 2^31-1 with width 1 passes for a 0x0 frame |
| Regions.Admitted | OcrProcessor.cs:59-66 | a region is read only when it passes the bounds check and its cut-out is not empty; without overflow, exactly when it is not empty and lies within the frame's width and height |
| Regions.Find | OcrProcessor.cs:41 | the indexer `_roiMap["BattingTeam"]`: None exactly when no entry has the key, else the value of the entry with that key |
| Patterns.Match | GameParser.cs:66 | `Regex.Match` as a scan of anchored attempts: no attempt before the reported start succeeds, and None means no attempt succeeds |
| Patterns.MatchAtSound | GameParser.cs:66 | a successful anchored attempt captures an occurrence of the pattern starting there, with group 2 maximal |
| Patterns.MatchAtComplete | GameParser.cs:66 | wherever an occurrence of the pattern starts, the anchored attempt there succeeds |
| Patterns.MatchMeaning | GameParser.cs:66-67 | `Regex.Match` fails exactly when the pattern does not occur; on success its groups are those of the leftmost occurrence, with greedy group 2 |
| Patterns.RegexMatchUnique | GameParser.cs:66 | the leftmost greedy occurrence is unique, so the captured groups are determined by the text |
| Patterns.SeparatorNeeded | GameParser.cs:77 | a text without the separator character never matches |
| GameParser.IntParse | GameParser.cs:69 | `int.Parse` of a digit string succeeds exactly when its value is at most 2147483647, and gives that value; otherwise it throws `OverflowException` |
| GameParser.ShortNumeralsParse | GameParser.cs:69-70 | a numeral of at most nine digits never makes `int.Parse` throw |
| GameParser.TryParse | GameParser.cs:63-83 | a null text gives (false, 0, 0); only `OverflowException` escapes; on failure both outputs are 0; on success both are non-negative `int`s |
| GameParser.TryParseMeaning | GameParser.cs:63-83 | the parse fails exactly when the pattern does not occur in `text ?? ""`; otherwise it parses the groups of the leftmost greedy occurrence |
| GameParser.TryParseScore | GameParser.cs:63-72 | a null text gives (false, 0, 0); the only exception is `OverflowException`; a successful parse needs a '/' in the text |
| GameParser.TryParseOvers | GameParser.cs:74-83 | a null text gives (false, 0, 0); the only exception is `OverflowException`; a successful parse needs a '.' in the text |
| GameParser.TryParseScoreMeaning | GameParser.cs:63-72 | TryParseScore on null gives (false, 0, 0); it fails exactly when digits, optional white space, '/', optional white space and digits do not occur; otherwise it parses the leftmost such digit runs |
| GameParser.TryParseOversMeaning | GameParser.cs:74-83 | TryParseOvers fails exactly when digits, '.' and digits with nothing between them do not occur; otherwise group 2 starts right after the '.' |
| GameParser.Field | GameParser.cs:25-26 | `GetValueOrDefault`: a value exactly when the key is present, and then the entry's value |
| GameParser.ReadFrame | GameParser.cs:25-26 | an accepted reading is exactly the pair of successful parses of the "RunsWickets" and "Overs" entries, and two successful parses always give that reading; the call throws exactly when the runs/wickets parse throws, or succeeds and the overs parse throws, passing on the runs/wickets exception first; it gives no reading exactly when the runs/wickets parse fails, or succeeds and the overs parse fails |
| GameParser.Ingest | GameParser.cs:23-61 | throws exactly when reading the frame throws, and then only `OverflowException`; a frame without a reading leaves the state as it was; an accepted reading gives `Commit` of it |
| GameParser.Commit | GameParser.cs:28-60 | the locked block: all four last-seen fields take the reading; an unseeded state keeps its results; a seeded state gains exactly one result at the end, keeps every earlier one, carries the reading's over, ball, frame number and timestamp, leaves the participant fields null, and has each delta equal to the counter's change or to 0 when that change is negative |
| GameParser.RejectedFrameChangesNothing | GameParser.cs:25-26 | a frame without a "RunsWickets" entry, or whose runs/wickets or over.ball text does not match, leaves the whole state unchanged |
| GameParser.IngestKeepsConsistent | GameParser.cs:18-61 | the state stays consistent: both last-seen values are null together; before seeding there are no results and the over and ball are 0; afterwards every held value and every emitted delta is a non-negative `int` |
| GameParser.IngestAllIsCommitAll | GameParser.cs:23-61 | a run of calls that throws nothing depends only on the accepted readings in arrival order |
| GameParser.CommitAllAppends | GameParser.cs:45-53 | once seeded, each accepted reading appends exactly one result and changes no earlier one |
| GameParser.FirstReadingEmitsNothing | GameParser.cs:31-38 | from a fresh parser, n accepted readings give n - 1 results |
| GameParser.TotalCoversNetChange | GameParser.cs:42-43 | the emitted deltas of a counter add up to at least its net change from the baseline to the last reading |
| GameParser.TotalTelescopes | GameParser.cs:42-43 | when the counter never decreases, the deltas add up to exactly that net change |
| GameParser.NetChangeFromFirstReading | GameParser.cs:31-59 | from a fresh parser, with a non-decreasing counter, the deltas add up to the last reading minus the first |
| GameParser.NoDedupAndMisreadOvercount | GameParser.cs:40-53 | two readings of the same ball emit a result; a misread dip from 10 to 5 runs followed by 10 again emits 5 runs that were never scored |
| GameParser.InsertByFrame | GameParser.cs:15 | inserting into a list sorted by frame number keeps it sorted and adds exactly that element |
| GameParser.InsertByFrameStable | GameParser.cs:15 | insertion puts the element after every result with its frame number and touches no other frame number's group |
| GameParser.SortByFrame | GameParser.cs:15 | `OrderBy(r => r.FrameNumber)`: sorted, a permutation, and stable (the results of each frame number keep their relative order) |
| GameParser.GameParser.constructor | GameParser.cs:10-21 | a new parser has no last runs or wickets, over and ball 0, and no results |
| GameParser.GameParser.ProcessFrameData | GameParser.cs:23-61 | the new state, or the exception thrown, is what `Ingest` gives for the old state; an exception leaves every field unchanged; consistency is kept |
| GameParser.GameParser.RecordReading | GameParser.cs:28-60 | the fields after the locked block are `Commit` of the fields before it |
| GameParser.GameParser.Results | GameParser.cs:13-16 | the getter returns the results sorted stably by frame number, as a permutation of the list |
| OcrProcessor.IsValidTeamName | OcrProcessor.cs:171-175 | true exactly when the name has length 3, contains a letter, and every letter is upper case |
| OcrProcessor.TeamNameExamples | OcrProcessor.cs:171-175 | "IND" and "A12" pass; "Ind", "123" and "INDI" fail |
| OcrProcessor.EngineFor | OcrProcessor.cs:86-92 | "RunsWickets", "OverWithBall" and "BattingTeam" each get their own engine; every other label gets the name engine |
| OcrProcessor.RouteKey | OcrProcessor.cs:99-119 | either batter label is routed to a batter key, "Batter1" exactly when the arrow shows; any other label is routed to itself |
| OcrProcessor.TextOf | OcrProcessor.cs:86-96 | the stored text is a slice of the raw reading of the label's engine with only white space cut from either end, and it neither starts nor ends with white space |
| OcrProcessor.AfterRoi | OcrProcessor.cs:57-122 | a region outside the frame or empty leaves the map unchanged; an admitted one stores its engine's trimmed text under its routed key and changes no other key |
| OcrProcessor.ProcessRoi | OcrProcessor.cs:57-122 | the private `ProcessFrame` overload writes exactly what `AfterRoi` describes |
| OcrProcessor.SecondPass | OcrProcessor.cs:48-49 | the second pass holds exactly the entries whose label does not start with "BattingTeam", with labels still unique |
| OcrProcessor.SecondPassKeepsOrder | OcrProcessor.cs:48-49 | the second pass keeps the dictionary's enumeration order |
| OcrProcessor.RouteAll | OcrProcessor.cs:48-52 | the loop over the second-pass regions never removes a key |
| OcrProcessor.Extract | OcrProcessor.cs:37-55 | the only exception is `KeyNotFoundException("BattingTeam")`; a non-empty result holds a "BattingTeam" entry |
| OcrProcessor.ProcessFrame | OcrProcessor.cs:37-55 | the public `ProcessFrame` returns or throws what `Extract` describes, with the loop over the second-pass regions |
| OcrProcessor.RouteAllUntouched | OcrProcessor.cs:48-52 | a key that no region routes to keeps its entry, or its absence |
| OcrProcessor.RouteAllKeys | OcrProcessor.cs:48-52 | every key the loop adds comes from an admitted region routed to it |
| OcrProcessor.RouteAllMembers | OcrProcessor.cs:48-52 | a key is in the result of the loop exactly when it was there before or some admitted region is routed to it |
| OcrProcessor.RouteAllLastWriter | OcrProcessor.cs:48-52 | a key holds the text of the last admitted region routed to it: a later region overwrites an earlier one |
| OcrProcessor.RouteAllOwnLabel | OcrProcessor.cs:48-52 | a non-batter region is processed exactly once: its label holds its own trimmed text when admitted, and is unchanged otherwise |
| OcrProcessor.TeamGate | OcrProcessor.cs:41-46 | no "BattingTeam" entry, or a team region out of bounds or empty, throws `KeyNotFoundException("BattingTeam")`; an invalid team name gives the empty map |
| OcrProcessor.NonEmptyResultHasTeam | OcrProcessor.cs:41-52 | a non-empty result holds a valid team name under "BattingTeam", read from the team region, which no later region overwrites |
| OcrProcessor.OtherLabels | OcrProcessor.cs:48-52 | past the gate, a region whose label is neither a batter label nor starts with "BattingTeam" is in the result exactly when admitted, holding its own trimmed text |
| OcrProcessor.RouteAllBatter | OcrProcessor.cs:99-115 | starting without a batter key, the loop ends with that key exactly when some batter region is admitted with the arrow (for "Batter1") or without it (for "Batter2"), holding the text of the last such region |
| OcrProcessor.BatterKeys | OcrProcessor.cs:99-115 | past the team gate, "Batter1" (or "Batter2") is in the result exactly when some batter region is admitted with (or without) the arrow, and it holds the trimmed text of the last such region in dictionary order |
| FrameProcessor.FixUp | FrameProcessor.cs:68-84 | an overs value always contains '.'; a runs/wickets value contains '/' or no '7'; a reading is replaced only by "0/0" (runs/wickets without '/' but with '7') or by "0.0" (overs without '.'); other labels are untouched |
| FrameProcessor.EngineFor | FrameProcessor.cs:64-66 | a region is read with the score engine exactly when it is a score region |
| FrameProcessor.LabelText | FrameProcessor.cs:64-84 | the stored text is the trimmed reading, or "0/0" for a runs/wickets reading without '/' but with '7', or "0.0" for an overs reading without '.'; an overs text always holds '.', a runs/wickets text holds '/' or no '7' |
| FrameProcessor.FixUpIdempotent | FrameProcessor.cs:68-84 | patching a patched reading changes nothing |
| FrameProcessor.Collect | FrameProcessor.cs:33-88 | the result's keys are exactly the labels of admitted regions, and each holds that region's trimmed, patched text |
| FrameProcessor.CollectStep | FrameProcessor.cs:33-88 | one more region adds or overwrites its own entry with its trimmed, patched reading when it passes the bounds check and is not empty, and changes nothing otherwise |
| FrameProcessor.ProcessFrame | FrameProcessor.cs:28-91 | the loop builds the map `Collect` describes |
| FrameProcessor.ScoreEntriesPatched | FrameProcessor.cs:67-86 | every stored overs value holds '.', every runs/wickets value holds '/' or no '7', and any other label holds the trimmed reading unchanged |
| Wiring.CollectField | FrameProcessor.cs:33-88 | what GameParser reads under a label from a FrameProcessor result is the stored text of the region with that label when it is configured and admitted, and nothing otherwise |
| Wiring.FrameProcessorFeedsParser | GameParser.cs:25-26 | the runs/wickets and overs texts GameParser reads from a FrameProcessor result are the stored texts of the "RunsWickets" and "Overs" regions when those are configured and admitted, and absent otherwise |
| Wiring.ZeroSepZeroMatches | GameParser.cs:66-77 | a zero, the separator and a zero match with both groups "0" |
| Wiring.SubstitutesParse | FrameProcessor.cs:74-81 | the substitutes "0/0" and "0.0" parse as (0, 0) in GameParser |
| Wiring.ScorePatchOnlyRejected | FrameProcessor.cs:71-75 | the runs/wickets patch replaces only a text TryParseScore rejects, and its replacement parses |
| Wiring.OversPatchOnlyRejected | FrameProcessor.cs:78-82 | the overs patch replaces only a text TryParseOvers rejects, and its replacement parses |
| Wiring.PatchedReadingsCanStillFail | FrameProcessor.cs:68-84 | "." passes the overs patch and "12" the runs/wickets patch unchanged, and GameParser rejects both |
| Wiring.OcrOversNeedsOversRegion | OcrProcessor.cs:86-119 | an OcrProcessor result has an "Overs" key only when the configuration has a region labelled "Overs"; the over.ball region is labelled "OverWithBall" |
| Wiring.OcrResultsNeverRecorded | GameParser.cs:26 | with no "Overs" region configured, GameParser never records an OcrProcessor result: each call leaves the state unchanged or throws `OverflowException` |

## Left out

- Image processing: all OpenCV work (resize, colour conversion, blur, dilate/erode, sharpening,
  threshold, invert) and all Tesseract engine setup and calls. They are the `Vision` parameter.
  Because the engine texts are keyed by region only, the model assumes one frame's preprocessing
  of a region is deterministic.
- The arrow test (`CountNonZero` against 0.95 of the 20-pixel strip, OcrProcessor.cs:101-104) is a
  floating-point pixel computation. It is the `hasArrow` oracle. OpenCV throws when the resized
  batter region is narrower than 20 pixels; that exception is not modelled.
- `new Mat(frame, roi)`: OpenCV throws for a region with negative coordinates, or one that passes
  the wrapped bounds check but lies outside the frame. The model treats such a region like any
  other and asks the `isEmpty` oracle.
- `MatToPix` (Windows only, otherwise `PlatformNotSupportedException`), `LoadRoiConfig` (file
  read and JSON), the constructors that build the engines, `Cv2.ImShow`/`WaitKey`, and all
  `Console.WriteLine` logging: I/O, UI or foreign calls.
- Regular expressions, `char.IsLetter`, `char.IsUpper`, `char.IsWhiteSpace` and `Trim` are
  modelled over ASCII. .NET's `\d` and `\s` also accept other Unicode digits and separators, and
  `IsLetter` accepts non-Latin letters. A non-ASCII digit matched by `\d` makes `int.Parse` throw
  `FormatException`.
- GameParser.TryParse: "only `OverflowException` escapes" holds for ASCII text only, because the
  `FormatException` for non-ASCII digits is not modelled; the same holds for
  GameParser.TryParseScore, GameParser.TryParseOvers, GameParser.ReadFrame and GameParser.Ingest.
- `StartsWith("BattingTeam")` is culture-sensitive in .NET; it is modelled as an ordinal prefix
  test.
- `DateTime` is its tick count (`Timestamp = int`).
- The lock in GameParser: the model is sequential, so it says nothing about calls racing each
  other.
- The concurrent pipeline (FramePipeline.cs), MatchRecorder.cs, Program.cs, the factories and the
  DTOs (FrameData, FrameItem, pipeline items) are not part of this model.
