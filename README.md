# CollisionSense decision layer in Dafny

CollisionSense watches a dash-camera video, detects and tracks road users
with YOLO, and shades each detection according to a collision-risk score.
This project models the part of it that makes decisions, and proves
properties of that model:

- **Camera geometry and kinematics** (`RelativeLocation`,
  `relative_location.dfy`). A pinhole-camera position is derived from a
  bounding box. It also provides a finite-difference velocity and a
  standalone time to collision.
- **The risk engine** (`RiskLevel`, `risk_level.dfy`). From a ground-plane
  relative position and velocity it computes:
  - the distance, the speed, the dot product and the closest approach;
  - the time to collision;
  - four factors, each clamped to [0, 100], with weights 0.3, 0.3, 0.15 and 0.25;
  - a discount for motion across the line of sight;
  - a score rounded half-to-even and clamped to an integer in [0, 100].
- **Per-frame object history** (`ObjectTracking`, `load.dfy`). This is the
  capture loop's dictionary keyed by tracker id, and a class with one
  `ProcessFrame` method. The method:
  - zips the detections;
  - builds one record per detection, pulling the previous box and time from the history;
  - writes each record back to the history;
  - then evicts the ids not seen in the frame.
- **Display arithmetic** (`Display`, `gui.dfy`). This covers:
  - the label-to-width table;
  - `normalize_with_range` and the brightness `beta` computed from it;
  - the in-lane test;
  - the tint and alpha of the risk overlay;
  - `calculate_velocity`, which falls back through three cases and updates the displayed object in place.
- **Dataset conversion**. Two independent converters turn BDD100K labels into
  YOLO label files. `ConvertPy` (`convert_py.dfy`) models `training/convert.py`:
  pixel-valued records, classes 1 to 6, and an exception on a missing key.
  `ConvertRs` (`convert_rs.dfy`) models `training/convert/src/main.rs`: records
  normalised to a 1280 x 720 frame, classes 0 to 5, an in-place `retain`, and
  a panic on a missing value. `Text` (`text.dfy`) holds joining and splitting
  of the output lines.

`Numeric` (`numeric.dfy`) holds the shared types and helpers:
- `Option`, `Result` and an extended real for `float("inf")`;
- clamping;
- Python's `round` (half to even) and `int()` (truncation);
- `math.sqrt`, which is a parameter `sqrt` constrained by `IsSqrt`: it is
  non-negative and squares back for non-negative arguments. Its uniqueness
  and monotonicity are proved from that.

All numbers are mathematical reals and integers. A Python exception or a
Rust panic becomes an `Err` value, never a precondition.

Three consequences of the code worth knowing:
- **The head-on scenario.** An object 20 m ahead closing at 10 m/s scores
  54: the factors are 0, 80, 250/7 and 100, so it stays below a score of
  60 (`RiskLevel.HeadOnScenario`).
- **A degenerate input.** An object at the origin with zero velocity
  scores 0, because its perpendicular factor is 0 and multiplies the
  whole score away (`RiskLevel.SlowObjectScoresZero`).
- **Label files.** Both converters derive the label file's name from the
  temporary JSON's name, not directly from the image's. That differs
  for some image names (see Findings).

## Model

| member | source | states |
|---|---|---|
| Numeric.RoundHalfEven | CollisionSense/logic/risk_level.py:129 | Python's `round`: the nearest integer, ties to the even one |
| Numeric.RoundWithin | CollisionSense/logic/risk_level.py:129 | rounding a value between two integers stays between them |
| Numeric.RoundMonotone | CollisionSense/logic/risk_level.py:129 | rounding never reverses order |
| Numeric.SqrtMonotone | CollisionSense/logic/risk_level.py:4-13 | the square root is monotone, derived from its defining property |
| Numeric.SqrtUnique | CollisionSense/logic/risk_level.py:4-13 | the non-negative square root is unique |
| Numeric.Truncate | CollisionSense/main/gui.py:197 | `int()` of a float truncates toward zero: the result is within 1 of the input and not farther from zero |
| RiskLevel.SquaredNorm | CollisionSense/logic/risk_level.py:4-7 | the squared distance is non-negative and zero exactly at the origin |
| RiskLevel.Magnitude | CollisionSense/logic/risk_level.py:4-13 | `calculate_distance` / `calculate_velocity_magnitude`: the non-negative length whose square is the squared norm, zero exactly for the zero vector |
| RiskLevel.ClosestApproach | CollisionSense/logic/risk_level.py:41-57 | closest approach lies between 0 and the current distance. Infinite time exactly at speed <= 0.001, and then the current distance. Otherwise a non-negative time whose position gives it, solving `t*|v|^2 == -dot` when approaching. A receding object is already closest |
| RiskLevel.CloserAtClosest | CollisionSense/logic/risk_level.py:45-53 | the position at `t_closest` is no farther than at any other non-negative time |
| RiskLevel.ClosestApproachIsMinimal | CollisionSense/logic/risk_level.py:44-57 | for a moving object `min_distance` is the minimum of the future distance |
| RiskLevel.TimeToCollision | CollisionSense/logic/risk_level.py:59-68 | finite exactly when within the 3 m passing distance, approaching and moving. Then time times speed is the distance, non-negative |
| RiskLevel.StoppingDistance | CollisionSense/logic/risk_level.py:70-79 | `v^2 / (2 * max_deceleration)`: fails exactly for a zero deceleration. Non-negative for a positive one, zero at rest |
| RiskLevel.SafeDistance | CollisionSense/logic/risk_level.py:84 | at least 5 m and at least 1.5 stopping distances, and equal to one of them |
| RiskLevel.DistanceFactor | CollisionSense/logic/risk_level.py:83-85 | in [0, 100]; zero exactly from the safe distance on; 100 at contact |
| RiskLevel.TtcFactor | CollisionSense/logic/risk_level.py:87-93 | in [0, 100]; zero exactly for no collision or a time of 10 s or more; 100 for an immediate one |
| RiskLevel.SuddenStopFactor | CollisionSense/logic/risk_level.py:95-98 | in [0, 100]; zero exactly for no stopping distance; 100 once it reaches `max(distance, 1)` |
| RiskLevel.MinDistanceFactor | CollisionSense/logic/risk_level.py:109-115 | in [0, 100]; zero exactly from the 3 m passing distance on (so the extra cut at 9 m never matters); 100 at zero |
| RiskLevel.PerpendicularFactor | CollisionSense/logic/risk_level.py:100-107 | fails exactly for a moving object at distance 0. Otherwise non-negative, `|cos|` of the angle as `pf * distance * speed == |dot|`, and 0 at speed <= 0.001 |
| RiskLevel.CombineFactors | CollisionSense/logic/risk_level.py:117-123 | the weights sum to 1: factors in [0, 100] give a result in [0, 100], zero only if all are, equal factors give themselves |
| RiskLevel.Discount | CollisionSense/logic/risk_level.py:125-127 | never raises the risk. Unchanged at `pf >= 0.3`, below 60 percent of it under 0.3, zero at `pf == 0` |
| RiskLevel.FinalScore | CollisionSense/logic/risk_level.py:129 | an integer in [0, 100]; on [0, 100] it is the round-half-even value, within 0.5 of the risk |
| RiskLevel.ScoreFromMeasurements | CollisionSense/logic/risk_level.py:59-129 | fails exactly for a zero deceleration or a moving object at distance 0; otherwise an integer in [0, 100] |
| RiskLevel.CalculateRiskLevel | CollisionSense/logic/risk_level.py:16-129 | `calculate_risk_level`: fails exactly for a zero deceleration or a moving object at the origin, otherwise an integer in [0, 100] |
| RiskLevel.ScoreFailsExactly | CollisionSense/logic/risk_level.py:102-103 | the only division that can fail for a non-zero deceleration is `cos_angle` with the object at the origin |
| RiskLevel.RiskFromMeasurements | CollisionSense/logic/risk_level.py:28-57 | the score depends on position and velocity only through distance, speed, dot product and closest approach |
| RiskLevel.SlowObjectScoresZero | CollisionSense/logic/risk_level.py:102-107 | speed <= 0.001 gives a perpendicular factor of 0 and a score of 0 |
| RiskLevel.RecedingObjectHasNoTtcRisk | CollisionSense/logic/risk_level.py:38-68 | when not approaching, `min_distance` is the distance, the time to collision is infinite and its factor 0 |
| RiskLevel.CauchySchwarz | CollisionSense/logic/risk_level.py:103 | `|dot| <= distance * speed` |
| RiskLevel.PerpendicularFactorIsCosine | CollisionSense/logic/risk_level.py:102-105 | away from the origin the perpendicular factor is defined and at most 1 |
| RiskLevel.HeadOnScore | CollisionSense/logic/risk_level.py:84-129 | distance 20, speed 10, dot -200, closest approach 0 at deceleration 7 scores 54 |
| RiskLevel.HeadOnScenario | CollisionSense/logic/risk_level.py:16-129 | an object at (0, 20) moving at (0, -10) scores 54 |
| RiskLevel.OffsetScore | CollisionSense/logic/risk_level.py:84-129 | a 10 m passing distance leaves only the sudden-stop factor: score 5 for distances between 22 and 23 m |
| RiskLevel.OffsetScenario | CollisionSense/logic/risk_level.py:16-129 | an object at (10, 20) moving at (0, -10) scores 5 |
| RiskLevel.MirrorPreservesApproach | CollisionSense/logic/risk_level.py:41-57 | mirroring left to right keeps the closest approach |
| RiskLevel.MirrorSymmetry | CollisionSense/logic/risk_level.py:16-129 | the score is the same for an object and its mirror image across the direction of travel |
| RelativeLocation.RelativeCoordinates | CollisionSense/logic/relative_location.py:4-41 | fails exactly for a zero-width box or a zero focal length. Otherwise `z * width == known_width * focal` and `x * focal == (center_x - W/2) * z`, likewise y |
| RelativeLocation.DepthPositive | CollisionSense/logic/relative_location.py:30-31 | positive widths and focal length put the object in front of the camera |
| RelativeLocation.DepthShrinks | CollisionSense/logic/relative_location.py:30-31 | a wider box means a strictly nearer object |
| RelativeLocation.LateralSign | CollisionSense/logic/relative_location.py:26-36 | x is negative, zero or positive exactly as the box centre is left of, on or right of the image centre |
| RelativeLocation.VerticalSign | CollisionSense/logic/relative_location.py:27-39 | y is negative, zero or positive exactly as the box centre is above, on or below the image centre |
| RelativeLocation.CenteredBoxIsAhead | CollisionSense/logic/relative_location.py:23-41 | a box centred on the image gives x == y == 0 |
| RelativeLocation.Velocity | CollisionSense/logic/relative_location.py:44-60 | fails exactly for zero elapsed time. Otherwise moving from the initial position with the result for that time reaches the new one |
| RelativeLocation.VelocityOfDisplacement | CollisionSense/logic/relative_location.py:56-58 | the inverse round trip: the velocity between p and p + v*t is v |
| RelativeLocation.StationaryVelocity | CollisionSense/logic/relative_location.py:56-60 | identical positions give velocity (0, 0, 0) |
| RelativeLocation.TimeToCollision | CollisionSense/logic/relative_location.py:81-98 | None exactly when not approaching; otherwise non-negative with `ttc * -v == |distance|` |
| RelativeLocation.TimeToCollisionForward | CollisionSense/logic/relative_location.py:97 | for a non-negative distance it is `distance / -v` |
| ObjectTracking.CalculateDistance | CollisionSense/main/load.py:27-35 | 0 for a non-positive width; otherwise positive with `d * width == 1.8 * 1000` |
| ObjectTracking.DistanceDecreasing | CollisionSense/main/load.py:30-35 | a wider box is strictly nearer |
| ObjectTracking.DistanceIsDepth | CollisionSense/main/load.py:27-35 | agrees with the depth of the camera geometry for the same width |
| ObjectTracking.Zip | CollisionSense/main/load.py:84 | as long as the shortest input; the k-th detection is the k-th of each input |
| ObjectTracking.Evict | CollisionSense/main/load.py:114-117 | keeps exactly the entries whose id was seen, unchanged |
| ObjectTracking.TrackFails | CollisionSense/main/load.py:87 | `Track`, the per-detection loop as a function: the frame fails exactly when some class index is missing from `class_names` |
| ObjectTracking.TrackLength | CollisionSense/main/load.py:84-108 | `Track` gives one record per detection |
| ObjectTracking.TrackPrefix | CollisionSense/main/load.py:84-111 | records of a prefix are a prefix of the records |
| ObjectTracking.RecordAt | CollisionSense/main/load.py:85-108 | the k-th record is built from the k-th detection and the history as it stood before it |
| ObjectTracking.TrackKeys | CollisionSense/main/load.py:111 | after `Track` the history holds the old ids and every id of the frame |
| ObjectTracking.TrackValues | CollisionSense/main/load.py:102-111 | each history entry is the last record written for its id, else the old entry |
| ObjectTracking.FrameRecords | CollisionSense/main/load.py:84-108 | each record of `Track` carries its detection's id, truncated box, distance, confidence, time and label. `old_bbox`/`prev_time` come from the last same-id record or the old history entry, else None |
| ObjectTracking.HistoryAfterFrame | CollisionSense/main/load.py:84-117 | after a frame the history's ids are exactly the frame's ids, each holding this frame's box and time; a frame without ids empties the history |
| ObjectTracking.EvictedIdStartsFresh | CollisionSense/main/load.py:102-117 | an id absent from a frame has no previous box when it reappears |
| ObjectTracking.DuplicateSeesEarlier | CollisionSense/main/load.py:102-111 | a repeated id in one frame sees the earlier record of the same frame as its previous one |
| ObjectTracking.TrackFailureSticks | CollisionSense/main/load.py:84-111 | once a detection raises, the frame's outcome is that error |
| ObjectTracking.ObjectHistory.constructor | CollisionSense/main/load.py:84-117 | a new history is empty |
| ObjectTracking.ObjectHistory.ProcessFrame | CollisionSense/main/load.py:84-117 | returns the frame's records and leaves the evicted history. On a missing class it returns the error and keeps the entries written so far |
| Display.WidthFor | CollisionSense/main/gui.py:23-121 | persons are 0.15 m wide, every other label 1.8 m |
| Display.NormalizeWithRange | CollisionSense/main/gui.py:30-33 | fails exactly when `max == min`; otherwise the linear map with `(r - tmin)(max - min) == (num - min)(tmax - tmin)` |
| Display.NormalizeEndpoints | CollisionSense/main/gui.py:30-33 | `min` maps to `target_min` and `max` to `target_max` |
| Display.BetaRange | CollisionSense/main/gui.py:128 | `Beta`: confidence 1 gives beta 0 and 0.75 gives 75; beta lies in [0, 75] and falls as confidence rises |
| Display.CarInLaneIsCentralBand | CollisionSense/main/gui.py:142 | `CarInLane`: in lane exactly when `|x| < 1.5`, excluding both edges |
| Display.TintFor | CollisionSense/main/gui.py:195-208 | no green, red at most 255. In lane blue is `255 - red`, out of lane blue is 0 and red uses `risk // 2`. Alpha is `min(0.5, 0.2 + risk/200)` |
| Display.TintBounds | CollisionSense/main/gui.py:195-208 | for risk in [0, 100]: red plus blue is 255 in lane, out-of-lane red is at most in-lane red, alpha in [0.2, 0.5], reaching 0.5 exactly from risk 60 |
| Display.RedMonotone | CollisionSense/main/gui.py:197-205 | more risk never means less red |
| Display.VelocityOf | CollisionSense/main/gui.py:239-257 | with box and non-zero time it is the finite difference: fails exactly on a degenerate old box or zero elapsed time, else the round trip reaches the current position. Otherwise it is the remembered velocity, else (0, 0, 0) |
| Display.TrackedObject.constructor | CollisionSense/main/gui.py:116-125 | a displayed object starts from its record with no remembered velocity |
| Display.TrackedObject.CalculateVelocity | CollisionSense/main/gui.py:239-257 | as written, with the default 1.8 m for the old box; stores the velocity only when it computed one, nothing else changes |
| Display.TrackedObject.CalculateVelocityCorrected | CollisionSense/main/gui.py:239-257 | the same with the label's width for the old box |
| Display.StationaryPersonSeemsToMove | CollisionSense/main/gui.py:243-245 | as written, a still person in an unchanged box gets a depth velocity of -16.5 m/s |
| Display.StationaryObjectIsStill | CollisionSense/main/gui.py:243-245 | corrected, an unchanged box gives zero velocity for every label |
| Text.SplitJoin | training/convert.py:101 | joining lines free of the separator and splitting again gives them back, with one separator fewer than lines |
| Text.NoTrailingSeparator | training/convert.py:101 | non-empty lines joined by "\n" leave no trailing newline |
| ConvertPy.CountMissing | training/convert.py:19-47 | `total` is the number of entries, `missing` the number whose image is not found, never more than `total` |
| ConvertPy.MissingOfCounts | training/convert.py:19-47 | each entry whose image is not found is counted once per occurrence, and a found one not at all |
| ConvertPy.KeepGoodSpec | training/convert.py:54-63 | `KeepGood`, the filter: it raises exactly for a label without category; otherwise it keeps exactly the good-category labels |
| ConvertPy.KeepGoodAppend | training/convert.py:61-63 | filtering respects concatenation, so order is preserved |
| ConvertPy.KeepGoodIdempotent | training/convert.py:61-63 | filtering twice is filtering once |
| ConvertPy.ClassIds | training/convert.py:70-77 | the lookup is defined exactly on the good categories, injective, with ids 1 to 6 |
| ConvertPy.ToYolo | training/convert.py:85-96 | raises on a missing category, unknown class or missing box. Otherwise the class id, `width == x2 - x1`, `height == y2 - y1` and the box centre in pixels |
| Numeric.MapResultSpec | training/convert.py:83-96 | a loop appending one result per element fails exactly when some element does; otherwise it gives one result per element, in order |
| Numeric.MapLoop | training/convert.py:83-96 | the appending loop computes exactly `MapResult`: every result in order, or the first error |
| ConvertPy.Convert | training/convert.py:83-96 | the loop yields `ToYolo` of every label in order, or the error of the first label that raises |
| ConvertPy.FilteredLabelsConvert | training/convert.py:61-96 | after filtering, labels with boxes all convert, with ids 1 to 6 |
| ConvertPy.LabelFileText | training/convert.py:101 | the file text splits back into its lines, has one newline fewer than lines, and no trailing newline |
| ConvertPy.SplitExt | training/convert.py:43 | `os.path.splitext`: root plus extension is the name; the extension is empty or one dot with no further dot or slash; it is non-empty exactly when the last path component has a dot preceded by a non-dot character |
| ConvertPy.SplitExtRoundTrip | training/convert.py:43 | a root whose last component is not all dots, followed by a dotted extension, splits back into that root and extension |
| ConvertPy.LabelFileMatchesImage | training/convert.py:43-99 | `TxtName(TempName(image))`, the temporary JSON's name with ".json" replaced: for a root without ".json", the label file is the root plus ".txt" |
| ConvertRs.KeptSpec | training/convert/src/main.rs:62-89 | `Kept`, the `retain` filter as a function: it keeps exactly the labels with a good string category |
| ConvertRs.KeptAppend | training/convert/src/main.rs:85-89 | keeping respects concatenation, so order is preserved |
| ConvertRs.KeptIdempotent | training/convert/src/main.rs:85-89 | keeping twice is keeping once |
| ConvertRs.Retain | training/convert/src/main.rs:85-89 | in place, the kept labels end up first, in order |
| ConvertRs.ClassIds | training/convert/src/main.rs:106-116 | the lookup is defined exactly on the good categories, injective, with ids 0 to 5 |
| ConvertRs.ToYolo | training/convert/src/main.rs:137-163 | panics exactly on a missing category, unknown class or missing corner; otherwise carries the class id |
| ConvertRs.Denormalise | training/convert/src/main.rs:146-152 | scaling back by 1280 x 720 gives the box centre and size in pixels |
| ConvertRs.NormalisedInUnitSquare | training/convert/src/main.rs:146-152 | a box inside the frame gives centre, size and both edges in [0, 1] |
| Numeric.MapResultFailureSticks | training/convert/src/main.rs:137-164 | once an element panics, the whole conversion ends with that error |
| ConvertRs.Convert | training/convert/src/main.rs:134-164 | the loop yields `ToYolo` of every label in order, or the error of the first label that panics |
| ConvertRs.RetainedLabelsConvert | training/convert/src/main.rs:85-139 | after `retain`, the class `unwrap` cannot fail, and ids are 0 to 5 |
| ConvertRs.EmptyFrameFileText | training/convert/src/main.rs:136-176 | a frame without labels still gets a label file holding a single newline |
| ConvertRs.LabelFileText | training/convert/src/main.rs:173 | the text ends in one newline, has one per line, and splits into the lines plus an empty piece |
| ConvertRs.FileStem | training/convert/src/main.rs:45-168 | `file_stem`: none exactly for "", "." and ".."; otherwise a non-empty prefix of the name, cut at its last dot, or the whole name when no dot follows the first character |
| ConvertRs.StemAndExtension | training/convert/src/main.rs:121-127 | a name is its stem, followed by a dot and its extension when it has one |
| ConvertRs.TempName | training/convert/src/main.rs:45-46 | panics exactly when the image name has no stem |
| ConvertRs.JsonNameRoundTrip | training/convert/src/main.rs:46-127 | the temporary JSON passes the "json" extension filter and has the image's stem |
| ConvertRs.TxtNameAsWritten | training/convert/src/main.rs:168-170 | a label file is named only when the JSON has a stem |
| ConvertRs.TxtName | training/convert/src/main.rs:168-170 | corrected: named exactly when the JSON has a stem |
| ConvertRs.LabelFileMatchesImage | training/convert/src/main.rs:45-170 | corrected, the label file is the image stem plus ".txt", distinct for distinct stems |
| ConvertRs.AsWrittenAgreesWithoutInnerDot | training/convert/src/main.rs:168-170 | for a stem without a dot, the code as written gives the same name |
| ConvertRs.AsWrittenDropsInnerExtension | training/convert/src/main.rs:168-170 | as written, a stem with an inner dot loses everything from its last dot: the label file is that shorter stem plus ".txt" |
| ConvertRs.DottedStemsCollide | training/convert/src/main.rs:168-170 | as written, "a.b.jpg" and "a.c.jpg" both write "a.txt"; corrected, "a.b.txt" and "a.c.txt" |

## Left out

- Video capture, YOLO inference and tracking, the virtual camera, the Tk window, ROI blending, mask drawing and text overlays. These are I/O and third-party calls.
- The queue and thread hand-off between capture and display (`load.py:119-131`, `main.py`).
- `calculate_angle_to_object`, which is trigonometry through numpy.
- The converters' file-system and parallel work:
  - walking, copying and deleting files;
  - JSON parsing and printing;
  - the rayon `par_iter` and `Mutex`, including the unordered `missing_files` list;
  - float-to-text formatting.

  Label files are modelled as sequences of records and of already formatted lines.
- IEEE floating point. Every quantity is an exact real. For example, `int(2.55 * 100)` is 254 in CPython but 255 over the reals, so `Display.TintFor` states bounds and relations rather than exact floating results.
- `time()` readings are parameters (`currentTime`, `now`).
- `math.sqrt` is a parameter constrained by `Numeric.IsSqrt`; the model does not compute roots.
- Aliasing: the capture loop stores the same dictionary in `bbox_data` and in `object_history`. The model copies records, and `Display.TrackedObject` is built from a record rather than sharing it.
- A frame whose `labels` field is missing or not an array. In Python this raises. In Rust only the label steps are skipped: the JSON is still rewritten, a label file holding a single newline is still written (`ConvertRs.EmptyFrameFileText`), and the temporary JSON is removed. The model covers that file but not the rewrite or the removal.
- ConvertRs.Retain: returns the new length and leaves the array's tail unspecified, where `Vec::retain` shrinks the vector.
- ConvertRs.FileStem: only single file names without '/' are modelled. A stem of "." is taken to name no file, where `Path::join` followed by `with_extension` would name one in the parent directory.
- ConvertPy.LabelFileMatchesImage: stated only for image roots without ".json". `str.replace` rewrites every occurrence of ".json", so a root containing it gets a different name.

## Findings

| source | as written | input that shows it | evidently intended | confidence | as-written member | corrected member |
|---|---|---|---|---|---|---|
| CollisionSense/main/gui.py:243-245 | the previous position is computed with the default width 1.8 m, while the current one (line 121-124) uses the label's width | a person (0.15 m) standing still in the box (0, 0, 100, 300), seen at times 1 and 2: velocity z is -16.5 m/s | both positions use the label's width, so a still object has zero velocity | medium, not executed | Display.TrackedObject.CalculateVelocity, Display.StationaryPersonSeemsToMove | Display.TrackedObject.CalculateVelocityCorrected, Display.StationaryObjectIsStill |
| training/convert/src/main.rs:168-170 | `with_extension("txt")` on the JSON's stem also drops the stem's own last extension | images "a.b.jpg" and "a.c.jpg" both write labels to "a.txt" | the label file is the image stem plus ".txt" ("a.b.txt"), as YOLO pairs image and label by stem | high, not executed | ConvertRs.TxtNameAsWritten, ConvertRs.AsWrittenDropsInnerExtension, ConvertRs.DottedStemsCollide | ConvertRs.TxtName, ConvertRs.LabelFileMatchesImage |
