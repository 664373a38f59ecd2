# MesaRPG core, modelled in Dafny

MesaRPG is a tabletop role-playing system. A camera watches the table. ArUco markers and a YOLO model find the miniatures. Trackers follow them from frame to frame. A game server keeps the session state: players, characters, character sheets, turns, abilities and cooldowns. A set of tools builds the tile catalogue of the map editor.

This project models that core and proves what it promises:

- `SortRecords`, `SortMatching`, `SortTracker`: the SORT tracker of `server/tracker.py`.
  - IoU and proximity scoring.
  - The greedy matcher, run in place on a score matrix (`array2`).
  - Track update, miss, cleanup and the active query.
  - `TrackedObject` and `SORTTracker` are classes whose methods are proved against record functions.
- `SimpleRecords`, `SimpleTracking`: the nearest-centre tracker of `server/simple_tracker.py`.
- `CameraRecords`, `Camera`: the camera manager of `server/camera_manager.py`.
  - Marker tracking with position smoothing and fade-out.
  - Player assignment.
  - The calibration workflow.
- `Detector`: the ArUco detector of `vision/detector.py`.
  - The change test between frames.
  - The pixel-to-game mapping.
- `Yolo`: the YOLO detector of `vision/yolo_detector.py`.
  - Calibration and normalisation.
  - Class names.
  - The detection filter loop.
- `GameRecords`, `GameSession`: the game state manager of `server/game_state.py`.
  - The character-sheet lifecycle and the marker pool.
  - Players and characters and their links.
  - Combat turns, cooldowns, ability execution and ability queries.
- `TileCatalog`, `OrganizeTiles`: `tools/organize_tiles.py`.
- `SinglesConfig`: `tools/generate_tiles_config.py`.
- `TileSizes`: `tools/update_tile_sizes.py`.
- `Wrappers`, `Seqs`, `Strings`: shared helpers.
  - `Option`.
  - Sequence filtering.
  - `str()` of integers, with its round trip.

Everything that is floating-point geometry is treated as an oracle. This covers square roots, arctangents and homographies. Such an oracle is a field of a `Numerics` value or a parameter, so the properties hold for any implementation of it. The clock, random ids and the file system are parameters too.

Where the code and its design notes disagree, the model follows the code, except for the defects listed under "## Findings": there the code as written is modelled by its own member, and the rest of the model uses the corrected behaviour. Otherwise:

- A new SORT track starts with `frames_tracked = 0`, not 1 (`server/tracker.py:30`, `205-218`). With `min_hits = 1` it is therefore hidden until its first match (`SortRecords.SpawnedHidden`).
- A SORT frame without detections only marks tracks missing. It never purges them (`server/tracker.py:135-139`), whatever `max_age` says (`SortRecords.EmptyFrameKeepsTracks`).
- A SORT track goes inactive after more than 10 misses in a row, a constant independent of `max_age` (`server/tracker.py:74`).
- Two size rules of `tools/update_tile_sizes.py` return `(4, "h3")` and `(10, "h5")`, although their comments announce 10 and 19 hexes (lines 76-78 and 84-86). The model follows the returned values.
- The alternate mega rule (`tools/update_tile_sizes.py:73-74`) can never fire, because the mega rule at lines 69-70 covers it (`TileSizes.AlternateMegaUnreachable`).

## Model

| member | source | states |
|---|---|---|
| SortRecords.Midpoint | server/tracker.py:43 | the centre is the floor of the box midpoint on each axis (bounds by twice the centre) |
| SortRecords.Overlap | server/tracker.py:272-277 | the overlap of two intervals is non-negative and, when positive, no longer than either interval |
| SortRecords.IoU | server/tracker.py:270-284 | intersection over union lies in [0, 1] for every pair of boxes and is 0 when they do not intersect |
| SortRecords.IntersectionBelowAreas | server/tracker.py:277-282 | a positive intersection is at most either box's area, so the union is positive |
| SortRecords.IoUSymmetric | server/tracker.py:270-284 | IoU does not depend on argument order |
| SortRecords.IoUSelf | server/tracker.py:270-284 | a box of positive area has IoU 1 with itself |
| SortRecords.Proximity | server/tracker.py:168-172 | `max(0, 1 - dist / distance_threshold)` is non-negative, at most 1 for a non-negative distance, and 0 from the threshold on |
| SortRecords.Score | server/tracker.py:175 | the combined score is at least the IoU and at least 0, and equals either the IoU or half the proximity |
| SortRecords.ScoreAtMostOne | server/tracker.py:160-175 | every combined score lies in [0, 1] |
| SortRecords.FarScoresZero | server/tracker.py:168-175 | a detection that does not overlap a track and lies at least `distance_threshold` away scores 0 |
| SortRecords.Scores | server/tracker.py:155-175 | the score matrix has one row per detection and one column per track, and each cell is that pair's combined score |
| SortRecords.Mod360 | server/tracker.py:83 | Python's float `% 360` yields a value in [0, 360) that differs from the input by a whole multiple of 360 |
| SortRecords.CircularMean | server/tracker.py:77-83 | the circular mean is 0 for no angles and otherwise lies in [0, 360) |
| SortRecords.Spawned | server/tracker.py:205-218 | a new track takes the detection's box and its floor-midpoint centre, is active, and has no hits, misses or history |
| SortRecords.Matched | server/tracker.py:37-62 | an update moves box and centre to the detection, counts one hit and zero misses, reactivates the track, appends the centre to the bounded history, sets the velocity to the last step, and smooths the orientation only when one is given |
| SortRecords.Moved | server/tracker.py:39-56 | the position part of an update, with orientation untouched |
| SortRecords.Turned | server/tracker.py:58-62 | the orientation part of an update changes only the orientation and its history: unchanged without a reading, otherwise a mean in [0, 360) over a history of at most 5 ending in the reading |
| SortRecords.Missed | server/tracker.py:71-75 | one more miss, and the track is active exactly when it was and the misses stay within 10 |
| SortRecords.MissAll | server/tracker.py:135-138 | every track misses the frame, in place and in order |
| SortRecords.MissedTimesState | server/tracker.py:71-75 | after `n` misses a track has `n` more misses, and it is active iff it was and its misses are within 10 |
| SortRecords.PredictExtrapolates | server/tracker.py:53-69 | after a match of a seen track the prediction is the new centre plus its displacement from the previous one |
| SortRecords.Active | server/tracker.py:295-300 | the active query returns only active tracks hit at least `min_hits` times, never more than there are |
| SortRecords.ActiveMembers | server/tracker.py:295-300 | a track is returned exactly when it is present, active and hit at least `min_hits` times |
| SortRecords.ActiveAppend | server/tracker.py:295-300 | the active query decides on each track independently and keeps the dictionary order |
| SortRecords.Cleanup | server/tracker.py:286-293 | cleanup keeps only active tracks missing at most `max_age` frames |
| SortRecords.CleanupMembers | server/tracker.py:286-293 | a record survives cleanup iff it was present and is active and within `max_age` |
| SortRecords.CleanupAppend | server/tracker.py:286-293 | cleanup decides on each track independently, in order |
| SortRecords.CleanupKeepsIds | server/tracker.py:286-293 | removing tracks keeps the ids strictly increasing and below the bound |
| SortRecords.SpawnAllExtend | server/tracker.py:196-198 | creating the track for one more unmatched detection appends its record with the next id |
| SortRecords.SpawnAll | server/tracker.py:196-198 | the unmatched detections become tracks numbered consecutively from `next_id`, in order |
| SortRecords.Assigned | server/tracker.py:178-190 | the detection assigned to a track column is absent iff the column was not committed, and otherwise comes from a committed pair |
| SortRecords.Aged | server/tracker.py:182-194 | matching keeps the number of tracks |
| SortRecords.Unmatched | server/tracker.py:229-248 | the leftover detections are valid detection indices |
| SortRecords.UnmatchedPartition | server/tracker.py:229-250 | every detection index is either in a committed pair or left over, never both, and none is left over twice |
| SortRecords.Ids | server/tracker.py:154 | `list(self.tracks.keys())` lists the ids of the tracks in order |
| SortRecords.AssignedId | server/tracker.py:183 | the detection paired with a track id is absent iff the id was never matched, and otherwise comes from a matched pair |
| SortRecords.MatchView | server/tracker.py:182-190 | applying the matched updates keeps the number of tracks |
| SortRecords.UpdatedByIdAt | server/tracker.py:186-190 | with distinct ids, records that differ only where the track with the id was updated are the update by that id |
| SortRecords.UpdatedById | server/tracker.py:186-190 | updating one track by id keeps the number of tracks |
| SortRecords.MatchViewExtend | server/tracker.py:183-190 | each further matched pair updates exactly the track with its id |
| SortRecords.AssignedIdExtend | server/tracker.py:183 | one more matched pair only changes the assignment of its own track id |
| SortRecords.MissViewExtend | server/tracker.py:192-194 | marking one more id missing, once it is new to the list, marks exactly the track with that id |
| SortRecords.MissView | server/tracker.py:192-194 | marking the unmatched ids missing keeps the number of tracks |
| SortRecords.AgedByIds | server/tracker.py:182-194 | updating the matched ids and then marking the unmatched ids missing is the column-wise aging of one frame, because ids are distinct |
| SortRecords.AssignedIdIsAssigned | server/tracker.py:183-194 | with distinct ids, the pairing keyed by track id is the pairing keyed by column |
| SortRecords.StepMatchedBy | server/tracker.py:153-203 | a frame with detections and tracks grows the tracks by the unmatched detections, cleans up, and advances `next_id` by their number |
| SortRecords.StepPartitionsDetections | server/tracker.py:178-198 | each detection of a frame either matches exactly one track or spawns exactly one new track |
| SortRecords.StepAgesEveryTrack | server/tracker.py:182-194 | each existing track keeps its id and is either updated by its matched detection (one more hit, no miss, active) or marked missing |
| SortRecords.StepReactivates | server/tracker.py:153-190 | an inactive track that was not yet purged can still be matched, and a match makes it active again |
| SortRecords.EmptyFrameKeepsTracks | server/tracker.py:133-139 | a frame without detections keeps the same tracks in the same order, each one miss older, and purges none |
| SortRecords.SpawnedHidden | server/tracker.py:295-300 | a new track has no hits, so with `min_hits >= 1` the active query hides it until its first match |
| SortRecords.StepKeepsIds | server/tracker.py:205-221 | ids stay strictly increasing and below `next_id`, and `next_id` never decreases, so no id is handed out twice |
| SortMatching.RowFirstMax | server/tracker.py:241 | the chosen column is a maximum of its row and strictly beats every column before it |
| SortMatching.FirstMax | server/tracker.py:241 | `unravel_index(argmax)` picks a maximum of the matrix that strictly beats every earlier cell in row-major order |
| SortMatching.FirstMaxUnique | server/tracker.py:241 | only one cell is a maximum that beats every earlier cell |
| SortMatching.Greedy | server/tracker.py:225-256 | every committed pair names a real detection row and a real track column |
| SortMatching.GreedyAtMostOnce | server/tracker.py:236-254 | each detection and each track is matched at most once, only through cells not yet zeroed, and only at a score at least `iou_threshold` |
| SortMatching.GreedyMaximal | server/tracker.py:236-239 | when matching stops, every unmatched detection and unmatched track meet with a score below the threshold |
| SortMatching.GreedyNonIncreasing | server/tracker.py:236-254 | each commit takes the largest score still available, so commit scores never increase |
| SortMatching.GreedyStep | server/tracker.py:236-254 | one loop round either stops with nothing more committed, or commits the first maximum and continues on the zeroed matrix |
| SortMatching.ZeroThresholdRepeats | server/tracker.py:236-254 | as written, with a threshold of 0 or below and every row zeroed, a round still commits (0, 0) and leaves the zeroed rows and columns unchanged, so the loop never ends |
| SortMatching.ArgMax | server/tracker.py:241 | the returned cell is a maximum of the array and the first maximum in row-major order |
| SortMatching.ZeroCross | server/tracker.py:253-254 | zeroing row `i` and column `j` leaves every other cell and mirrors the matrix with them removed |
| SortMatching.MatchStart | server/tracker.py:227-230 | the lists start with nothing matched and every detection and track unmatched |
| SortMatching.ProgressCommit | server/tracker.py:244-254 | a commit extends the matched lists by the next greedy pair and its track id |
| SortMatching.LeftoversCommit | server/tracker.py:247-250 | removing a committed detection and track keeps the leftover lists equal to the originals without the matched ones |
| SortMatching.MatchStop | server/tracker.py:237-239 | once the maximum is below the threshold, the matched lists hold exactly the greedy pairs |
| SortMatching.MaxCell | server/tracker.py:237-241 | the maximum and its first position decide whether matching stops or commits that cell next |
| SortMatching.Commit | server/tracker.py:242-254 | one commit appends the detection and track id, drops them from the leftover lists, and zeroes row and column |
| SortMatching.Match | server/tracker.py:225-256 | `_match` returns exactly the greedy pairs (as detection indices and track ids, in commit order) and the detections and tracks left over, in their original order |
| SortMatching.MatchLoop | server/tracker.py:236-255 | the loop ends with the matched lists equal to the greedy pairs and the leftover lists consistent with them |
| SortMatching.Round | server/tracker.py:237-254 | one loop body either stops with all greedy pairs committed, or commits the next one and zeroes its row and column |
| SortTracker.TrackedObject.constructor | server/tracker.py:205-218 | the track object built from a detection is `Spawned` |
| SortTracker.TrackedObject.Update | server/tracker.py:37-62 | `update` changes the track exactly as `Matched` says |
| SortTracker.TrackedObject.Move | server/tracker.py:39-56 | the position part of `update` is `Moved` |
| SortTracker.TrackedObject.Record | server/tracker.py:50-56 | appending a centre to the history and recomputing the velocity |
| SortTracker.TrackedObject.Place | server/tracker.py:41-44 | stores the new box, its centre and the confidence |
| SortTracker.TrackedObject.See | server/tracker.py:45-48 | stamps the time, counts a hit, clears the misses and reactivates |
| SortTracker.TrackedObject.Turn | server/tracker.py:58-62 | the orientation part of `update` is `Turned` |
| SortTracker.TrackedObject.MarkMissing | server/tracker.py:71-75 | `mark_missing` changes the track exactly as `Missed` says |
| SortTracker.Confirmed | server/tracker.py:297-300 | the comprehension over track objects yields exactly the records `Active` keeps |
| SortTracker.SORTTracker.constructor | server/tracker.py:106-121 | a new tracker has no tracks, `next_id = 1` and `frame_count = 0` |
| SortTracker.SORTTracker.TrackIds | server/tracker.py:154 | the ids of the tracks in dictionary order |
| SortTracker.SORTTracker.FindFrom | server/tracker.py:306-308 | the position of an id, or -1 exactly when no track from there on has it |
| SortTracker.SORTTracker.GetTrack | server/tracker.py:306-308 | `get_track` returns a track with that id, or None exactly when there is none |
| SortTracker.SORTTracker.ActiveTracks | server/tracker.py:295-300 | `_get_active_tracks` returns the tracks whose records `Active` keeps |
| SortTracker.SORTTracker.Reset | server/tracker.py:310-314 | reset clears the tracks and sets `next_id` to 1 and `frame_count` to 0 |
| SortTracker.SORTTracker.MarkAllMissing | server/tracker.py:135-138 | every track misses the frame |
| SortTracker.SORTTracker.CreateTrack | server/tracker.py:205-223 | a new track with id `next_id` is appended, and `next_id` grows by one |
| SortTracker.SORTTracker.CreateTracks | server/tracker.py:196-198 | one new track per listed detection, numbered consecutively |
| SortTracker.SORTTracker.ScoreMatrix | server/tracker.py:153-175 | the array built holds exactly the score matrix `Scores` |
| SortTracker.SORTTracker.ApplyMatches | server/tracker.py:182-190 | every matched pair updates its track, in commit order |
| SortTracker.SORTTracker.ApplyMatch | server/tracker.py:183-190 | the `k`-th matched update |
| SortTracker.SORTTracker.UpdateById | server/tracker.py:186-190 | `self.tracks[id].update(...)` updates the track with that id and no other |
| SortTracker.SORTTracker.MarkById | server/tracker.py:193-194 | `self.tracks[id].mark_missing()` marks the track with that id missing and no other |
| SortTracker.SORTTracker.MarkUnmatched | server/tracker.py:192-194 | every unmatched track id is marked missing |
| SortTracker.SORTTracker.Cleanup | server/tracker.py:286-293 | `_cleanup` leaves exactly the records `Cleanup` keeps |
| SortTracker.SORTTracker.Update | server/tracker.py:123-203 | one call is one `Step` of the records and `next_id`; the frame counter grows by one; the result is the active query |
| SortTracker.SORTTracker.MissFrame | server/tracker.py:135-139 | without detections, every track misses the frame and nothing else changes, as `Step` says |
| SortTracker.SORTTracker.SpawnFirst | server/tracker.py:147-151 | without tracks, every detection becomes a track with consecutive ids, as `Step` says |
| SortTracker.SORTTracker.UpdateMatched | server/tracker.py:153-203 | the branch with detections and tracks computes the greedy matching of the score matrix and applies it |
| SortTracker.SORTTracker.MatchAndAge | server/tracker.py:153-194 | scoring, matching, updating and missing age every track by the greedy matching, and return the unmatched detections |
| SortTracker.SORTTracker.Associate | server/tracker.py:153-180 | the matched lists follow the greedy matching of the score matrix, and the leftovers are the rest in order |
| SortTracker.SORTTracker.AgeTracks | server/tracker.py:182-194 | the id-keyed updates and misses age the tracks column-wise |
| SortTracker.Survivors | server/tracker.py:288-291 | the tracks kept are those whose records cleanup keeps |
| SortTracker.MatchedIdsDistinct | server/tracker.py:241-245 | the matched track ids are distinct |
| SimpleRecords.FloorCentre | server/simple_tracker.py:30-31 | the centre is the floor of the box midpoint on each axis |
| SimpleRecords.Created | server/simple_tracker.py:115-121 | a new track takes the detection's centre and box, orientation (default 0) and confidence (default 1), with no misses and empty history |
| SimpleRecords.Refreshed | server/simple_tracker.py:28-38 | `update` sets box, floor centre, confidence and time, clears the misses, and smooths the orientation over a history of at most 10 ending in the reading |
| SimpleRecords.Turned | server/simple_tracker.py:36-47 | the smoothing changes only orientation and history; the mean lies in [0, 360) |
| SimpleRecords.Bump | server/simple_tracker.py:79 | one more miss and nothing else |
| SimpleRecords.BumpAll | server/simple_tracker.py:77-79 | every track misses one more frame |
| SimpleRecords.Dist2 | server/simple_tracker.py:104 | squared distances are non-negative |
| SimpleRecords.Scan | server/simple_tracker.py:100-107 | the search from position `k` returns a valid position |
| SimpleRecords.Pick | server/simple_tracker.py:101-107 | one step keeps the best so far or takes track `k` |
| SimpleRecords.Nearest | server/simple_tracker.py:96-107 | the search returns a valid track position or none |
| SimpleRecords.ScanIsNearest | server/simple_tracker.py:100-107 | the scan loop computes the nearest eligible track |
| SimpleRecords.NearestIsNearest | server/simple_tracker.py:96-107 | the track found is unused, strictly closer than `max_distance`, no farther than any other eligible track, and the earliest among equals; none is found only when no track is eligible |
| SimpleRecords.NearestUnique | server/simple_tracker.py:96-107 | that characterisation admits a single answer |
| SimpleRecords.Purge | server/simple_tracker.py:131-138 | cleanup keeps only tracks missing at most `max_missing` frames |
| SimpleRecords.PurgeMembers | server/simple_tracker.py:131-138 | a track survives iff it was present and missing at most `max_missing` frames |
| SimpleRecords.PurgeKeepsIds | server/simple_tracker.py:131-138 | cleanup keeps the ids increasing and below the bound |
| SimpleRecords.SameIdKeepsIds | server/simple_tracker.py:111 | updating a track in place keeps the id set |
| SimpleRecords.AppendKeepsIds | server/simple_tracker.py:122-124 | storing a track under `next_id` and bumping it keeps the ids increasing |
| SimpleRecords.ClaimTakesOne | server/simple_tracker.py:89-124 | each detection takes exactly one id not used before, and at most one new track |
| SimpleRecords.AssignTakesOnePerDetection | server/simple_tracker.py:87-124 | the detection loop hands out one distinct id per detection, each naming a track afterwards |
| SimpleRecords.ClaimTouchesOne | server/simple_tracker.py:109-112 | a detection refreshes the track it takes and leaves every other existing track unchanged |
| SimpleRecords.AssignAgesUnclaimed | server/simple_tracker.py:87-124 | across the loop, an unclaimed existing track is unchanged and a claimed one ends with no misses |
| SimpleRecords.AgesStep | server/simple_tracker.py:101-112 | a claimed track is never claimed again, so its refresh stands |
| SimpleRecords.AssignSpawnsFromNextId | server/simple_tracker.py:113-124 | the tracks created in a frame get consecutive ids from `next_id` |
| SimpleRecords.FrameKeepsIds | server/simple_tracker.py:72-129 | a frame keeps the ids strictly increasing and below `next_id`, which never decreases |
| SimpleRecords.FrameAgesUnclaimed | server/simple_tracker.py:77-84 | an unclaimed track survives one miss older iff its misses stay within `max_missing`; on an empty frame this holds for every track |
| SimpleTracking.TrackedMini.constructor | server/simple_tracker.py:115-121 | the new track object is `Created` |
| SimpleTracking.TrackedMini.Update | server/simple_tracker.py:28-38 | `update` changes the track exactly as `Refreshed` says |
| SimpleTracking.TrackedMini.Place | server/simple_tracker.py:29-34 | stores box, centre, confidence and time, and clears the misses |
| SimpleTracking.TrackedMini.Turn | server/simple_tracker.py:36-47 | the smoothed orientation is `Turned` |
| SimpleTracking.TrackedMini.Bump | server/simple_tracker.py:79 | one more miss |
| SimpleTracking.SimpleTracker.constructor | server/simple_tracker.py:66-70 | no tracks and `next_id = 1` |
| SimpleTracking.SimpleTracker.Reset | server/simple_tracker.py:140-143 | clears the tracks and restarts ids at 1 |
| SimpleTracking.SimpleTracker.Update | server/simple_tracker.py:72-129 | one call is one `Frame` of the records and `next_id`, and returns every remaining track |
| SimpleTracking.SimpleTracker.AssignAll | server/simple_tracker.py:87-124 | the detection loop is `Assign` from an empty used set |
| SimpleTracking.SimpleTracker.BumpAll | server/simple_tracker.py:77-79 | every track misses one more frame |
| SimpleTracking.SimpleTracker.Nearest | server/simple_tracker.py:96-107 | the search loop returns the nearest eligible track, `Nearest` |
| SimpleTracking.SimpleTracker.ClaimOne | server/simple_tracker.py:89-124 | one loop iteration is one `Claim` |
| SimpleTracking.SimpleTracker.ClaimExisting | server/simple_tracker.py:109-112 | the branch that refreshes the nearest track |
| SimpleTracking.SimpleTracker.ClaimNew | server/simple_tracker.py:113-124 | the branch that creates a track |
| SimpleTracking.SimpleTracker.Refresh | server/simple_tracker.py:111 | only the chosen track is refreshed |
| SimpleTracking.SimpleTracker.Spawn | server/simple_tracker.py:115-124 | a new track with id `next_id` is appended and `next_id` grows by one |
| SimpleTracking.SimpleTracker.Cleanup | server/simple_tracker.py:131-138 | `_cleanup` leaves exactly the records `Purge` keeps |
| SimpleTracking.Survivors | server/simple_tracker.py:133-136 | the tracks kept are those whose records `Purge` keeps |
| CameraRecords.Fresh | server/camera_manager.py:47-72 | a new miniature entry is visible, unassigned and has no position history |
| CameraRecords.PyTail | server/camera_manager.py:79 | Python's `s[-m:]` for positive `m` keeps the last `m` elements |
| CameraRecords.KeptShape | server/camera_manager.py:77-79 | the kept history ends with the new sample and holds between 1 and `smoothing` samples |
| CameraRecords.SmoothedBetween | server/camera_manager.py:82-89 | the smoothed position lies within the box spanned by the samples, and is the raw sample while fewer than 2 are kept |
| CameraRecords.PositionedSmooths | server/camera_manager.py:74-95 | after `update_position` the history ends with the sample and holds at most `smoothing` samples, the position lies within their box, and the entry is visible and seen now |
| CameraRecords.Fade | server/camera_manager.py:525-531 | fading hides entries but never adds or removes one |
| CameraRecords.FadeByKeys | server/camera_manager.py:527-531 | hiding the entries one key at a time in dictionary order gives `Fade` |
| CameraRecords.ObserveKeeps | server/camera_manager.py:505-523 | one marker keeps the registry consistent with its insertion order, only appends keys, leaves the marker's entry visible and seen now, and leaves other entries alone |
| CameraRecords.ObserveAllStep | server/camera_manager.py:505-523 | the marker loop from one position is that marker's observation followed by the loop over the rest |
| CameraRecords.ObserveAllConsistent | server/camera_manager.py:505-523 | the marker loop keeps the registry consistent and only appends keys |
| CameraRecords.ObserveAllLeaves | server/camera_manager.py:505-523 | an entry that no marker of the frame names leaves the marker loop unchanged |
| CameraRecords.ObserveAllSees | server/camera_manager.py:505-523 | every marker of the frame leaves the loop present, visible and seen now |
| CameraRecords.TrackingSpec | server/camera_manager.py:501-531 | `_update_tracking` deletes nothing and only appends ids; every seen marker is present and visible; an unseen entry keeps every field except that it turns invisible exactly when it was last seen more than the timeout ago |
| CameraRecords.CalculatedSpec | server/camera_manager.py:130-145 | the homography step never touches the points or the game size; without OpenCV or with fewer than 4 points in either list it fails and changes nothing; success means a matrix is installed; `is_calibrated` keeps saying whether a matrix is present |
| CameraRecords.AssignedInTwoSteps | server/camera_manager.py:536-543 | creating the entry if absent and then setting the player fields is the assignment |
| CameraRecords.FirstAssignedSpec | server/camera_manager.py:558-563 | the miniature found for a player is the earliest in insertion order that carries the player, and none is found exactly when no entry carries it |
| CameraRecords.AssignedKeeps | server/camera_manager.py:533-546 | assigning keeps the registry consistent, touches only the named entry (created if absent), and that entry carries the player, name and character |
| CameraRecords.AssignedFinds | server/camera_manager.py:533-563 | after assigning a player, a miniature is found for that player |
| CameraRecords.UnassignUndoes | server/camera_manager.py:548-556 | unassigning an entry just assigned clears its player, and restores an entry that existed without one |
| Camera.TrackedMiniature.constructor | server/camera_manager.py:511-514 | the new entry is `Fresh` |
| Camera.TrackedMiniature.UpdatePosition | server/camera_manager.py:74-95 | `update_position` changes the entry exactly as `Positioned` says |
| Camera.TrackedMiniature.Smooth | server/camera_manager.py:77-89 | appends the sample, keeps the last `smoothing` and sets the smoothed position |
| Camera.TrackedMiniature.Pose | server/camera_manager.py:91-93 | stores rotation and pixel position |
| Camera.TrackedMiniature.See | server/camera_manager.py:94-95 | stamps the time and makes the entry visible |
| Camera.TrackedMiniature.Hide | server/camera_manager.py:531 | makes the entry invisible and nothing else |
| Camera.TrackedMiniature.SetPlayer | server/camera_manager.py:541-543 | sets the three assignment fields and nothing else |
| Camera.CalibrationData.constructor | server/camera_manager.py:116-128 | no points, no matrix, a 1920x1080 game area, not calibrated |
| Camera.CalibrationData.CalculateHomography | server/camera_manager.py:130-145 | the object changes as `Calculated` says and the result is its flag |
| Camera.CalibrationData.TransformPoint | server/camera_manager.py:147-157 | the point is returned unchanged without OpenCV or matrix, and otherwise mapped through the matrix |
| Camera.CalibrationData.AddPoint | server/camera_manager.py:583-584 | appends one image point and one game point |
| Camera.CalibrationData.SetCorners | server/camera_manager.py:599-614 | sets the game size, the four frame corners and the four game-area corners |
| Camera.CameraManager.constructor | server/camera_manager.py:166-213 | disconnected, no error, not running, a 1280x720 frame, the 5-second timeout, default calibration and no miniatures |
| Camera.CameraManager.UpdateTracking | server/camera_manager.py:501-531 | the registry and its order change exactly as `Tracking` says; calibration and state are untouched |
| Camera.CameraManager.ObserveMarkers | server/camera_manager.py:505-523 | the marker loop is `ObserveAll` |
| Camera.CameraManager.Observe | server/camera_manager.py:506-523 | one loop iteration is `Observe` |
| Camera.CameraManager.Move | server/camera_manager.py:517-523 | `update_position` on the marker's entry only |
| Camera.CameraManager.Enter | server/camera_manager.py:509-514 | creates the entry, appended to the order, only when absent |
| Camera.CameraManager.FadeAll | server/camera_manager.py:526-531 | the second loop is `Fade` |
| Camera.CameraManager.HideEntry | server/camera_manager.py:531 | only the named entry turns invisible |
| Camera.CameraManager.AssignPlayer | server/camera_manager.py:533-546 | `assign_player_to_miniature` always succeeds and changes the registry exactly as `Assigned` says |
| Camera.CameraManager.Unassign | server/camera_manager.py:548-556 | `unassign_miniature` succeeds iff the id is known and then clears the player |
| Camera.CameraManager.Carry | server/camera_manager.py:540-543 | sets the assignment fields of one entry |
| Camera.CameraManager.MiniatureForPlayer | server/camera_manager.py:558-563 | returns the first entry in insertion order that carries the player, or None exactly when there is none |
| Camera.CameraManager.StartCalibration | server/camera_manager.py:575-578 | fresh default calibration data and the CALIBRATING state, with no error |
| Camera.CameraManager.AddCalibrationPoint | server/camera_manager.py:580-585 | appends to both point lists and returns the new count |
| Camera.CameraManager.FinishCalibration | server/camera_manager.py:587-595 | on success the state is CONNECTED, or STREAMING while capturing; on failure the state is unchanged |
| Camera.CameraManager.SetSimpleCalibration | server/camera_manager.py:597-616 | maps the four frame corners onto the four game-area corners and computes the homography |
| Detector.Ids | vision/detector.py:251 | the id set of a frame holds exactly the ids of its readings |
| Detector.AnyMovedSpec | vision/detector.py:259-265 | the position loop reports a move exactly when some reading of a known id moved strictly more than the threshold along an axis |
| Detector.MarkersChangedSpec | vision/detector.py:249-267 | a frame counts as changed when its id set differs from the last one; with the same ids, exactly when some marker moved strictly more than the threshold along an axis (a move of exactly the threshold does not count) |
| Detector.ById | vision/detector.py:217 | the dictionary built from a frame has exactly the frame's ids as keys |
| Detector.ByIdLast | vision/detector.py:217 | each id keeps its last reading in the frame |
| Detector.RecordedFrameUnchanged | vision/detector.py:249-267 | once a frame with one reading per id is recorded, the same frame no longer counts as changed |
| Detector.PixelToGame | vision/detector.py:155-166 | with a homography the point goes through it; otherwise it is scaled linearly from the frame to the play area, and a zero frame size (a division by zero in the source) gives no result |
| Detector.PixelToGameCorners | vision/detector.py:162-166 | the linear scaling sends the frame's corners to the play area's corners |
| Detector.PixelToGameMonotone | vision/detector.py:162-166 | the linear scaling keeps the order of pixel positions |
| Detector.ArucoDetector.constructor | vision/detector.py:24-63 | 1280x720 frames, a 1920x1080 play area, no homography and no markers sent yet |
| Detector.ArucoDetector.RecordIfChanged | vision/detector.py:213-219 | the frame is recorded by id exactly when it counts as changed against the last one sent (threshold 5), and otherwise nothing changes |
| Yolo.Min | vision/yolo_detector.py:330-332 | `min` over a non-empty list is an element no larger than any other |
| Yolo.Max | vision/yolo_detector.py:331-333 | `max` over a non-empty list is an element no smaller than any other |
| Yolo.Calibrated | vision/yolo_detector.py:327-334 | the stored box holds the four points and its bounds are attained by them |
| Yolo.Clamp01 | vision/yolo_detector.py:346 | `max(0, min(1, v))` lies in [0, 1], is `v` inside it, and clamps outside |
| Yolo.Normalized | vision/yolo_detector.py:337-346 | without calibration the position is returned as is; with one, a box of zero width or height (a division by zero in the source) gives no result, and otherwise both coordinates lie in [0, 1] |
| Yolo.UnitSpec | vision/yolo_detector.py:343-346 | in a proper interval the ends go to 0 and 1, outside is clamped, and inside reads back |
| Yolo.NormalizedSpec | vision/yolo_detector.py:337-346 | in a proper box the corners go to (0, 0) and (1, 1), positions outside are clamped, and a position inside can be read back from its normalised value |
| Yolo.NormalizedMonotone | vision/yolo_detector.py:343-346 | normalisation keeps the order of positions along x |
| Yolo.FigurineLabelInjective | vision/yolo_detector.py:189 | different figurine numbers give different names |
| Yolo.NameBoxSpec | vision/yolo_detector.py:186-193 | a tracked box in figurine mode shows its id's name, which it gets (and the counter advances) only on the id's first sighting; names already given never change and stay distinct; otherwise the class name is shown and nothing changes |
| Yolo.DetectedStep | vision/yolo_detector.py:165-216 | one loop step skips an ignored class, or names the box and reports it under its tracking id, or under its index when it has none |
| Yolo.Kept | vision/yolo_detector.py:177-179 | no reported box has an ignored class |
| Yolo.DetectedSpec | vision/yolo_detector.py:165-216 | one detection per box not ignored, in order and with that box's class; names already given never change, the counter never goes back, names stay distinct, and outside figurine mode nothing is named |
| Yolo.YoloDetector.constructor | vision/yolo_detector.py:112-122 | no calibration, no names, the counter at 1, and the given mode and ignore set |
| Yolo.YoloDetector.SetCalibration | vision/yolo_detector.py:322-335 | exactly four points are stored with their box; any other count changes nothing |
| Yolo.YoloDetector.NameFor | vision/yolo_detector.py:186-193 | the detector's names, counter and shown name become what `NameBox` gives, and the names stay distinct |
| Yolo.YoloDetector.Detect | vision/yolo_detector.py:165-216 | the loop produces the names, counter and detections that `Detected` describes |
| GameRecords.SheetGuards | server/game_state.py:148-236 | each sheet operation succeeds exactly under the source's conditions: edit by the owner or a GM of a sheet not IN_GAME; submit by the owner from DRAFT or REJECTED; approve and reject from PENDING; token from APPROVED with the marker in the pool |
| GameRecords.SheetSteps | server/game_state.py:148-236 | every successful sheet operation is one step of the lifecycle DRAFT → PENDING → APPROVED/REJECTED → IN_GAME (an edit goes back to DRAFT), and an IN_GAME sheet never changes |
| GameRecords.InGameIsFinal | server/game_state.py:218-228 | no step leaves IN_GAME |
| GameRecords.RemoveFirstPool | server/game_state.py:229 | `list.remove(m)` on a pool with no repeats removes `m` and nothing else |
| GameRecords.PoolOkStore | server/game_state.py:164-206 | storing a sheet without a marker keeps the pool invariant |
| GameRecords.PoolOkToken | server/game_state.py:215-229 | assigning a token keeps the pool invariant: the marker leaves the pool and one sheet holds it, so, starting from a pool without repeats, no marker is assigned twice |
| GameRecords.Released | server/game_state.py:283-285 | releasing characters keeps every character id |
| GameRecords.ReleasedSpec | server/game_state.py:278-285 | afterwards no character is owned by the player, and nothing else about any character changes |
| GameRecords.AssignedAsWrittenUnlinks | server/game_state.py:288-299 | as written, giving a character to a second player leaves the first player still naming it |
| GameRecords.AssignedToPlayerSpec | server/game_state.py:288-299 | the corrected assignment links player and character both ways, keeps all links consistent, and changes no other player or character beyond releasing the character from its former player |
| GameRecords.FindByMarker | server/game_state.py:308-312 | a character found carries the marker |
| GameRecords.FindByMarkerSpec | server/game_state.py:308-312 | the search finds a character exactly when one carries the marker, and it finds the first such one in insertion order |
| GameRecords.FindByMarkerUnique | server/game_state.py:308-321 | with one character per marker, the search result is the only character carrying it |
| GameRecords.FromTemplate | server/game_state.py:328-344 | the new character has the given id, marker and position, no owner, and the template's values with the source's defaults (100 hp, mana and max hp, "Personaje <n>", no abilities) |
| GameRecords.CharsOkPut | server/game_state.py:346 | storing a character keeps the insertion order consistent and one character per marker; a new id goes to the end |
| GameRecords.CharsOkRetouched | server/game_state.py:283-285 | changing characters without touching ids or markers keeps the order consistent |
| GameRecords.CharsOkRemove | server/game_state.py:363 | popping a character keeps the order consistent |
| GameRecords.Tick | server/game_state.py:413-417 | an ability stays on cooldown exactly when it had more than one turn left |
| GameRecords.TickPartStep | server/game_state.py:414-417 | one loop visit drops an exhausted ability or shortens its cooldown by one |
| GameRecords.TickPartEnds | server/game_state.py:413-417 | the loop starts from the old cooldowns and ends at `Tick` |
| GameRecords.TickSpec | server/game_state.py:413-417 | every cooldown left is positive and one turn shorter, and cooldowns at or below 1 are gone |
| GameRecords.CooldownsOkPut | server/game_state.py:489-492 | storing positive cooldowns keeps every stored cooldown positive |
| GameRecords.Rotate | server/game_state.py:420-427 | the next index is `(idx + 1) mod n`, and the turn counter advances exactly when it wraps to 0 |
| GameRecords.ExecutedFrame | server/game_state.py:471-486 | a successful ability changes no character other than the caster, the damaged target and the healed one, and keeps every id |
| GameRecords.ExecutedKeepsChars | server/game_state.py:471-486 | a successful ability keeps ids, order and markers |
| GameRecords.DamagedKeepsChars | server/game_state.py:475-480 | damage keeps ids, order and markers |
| GameRecords.HealedKeepsChars | server/game_state.py:482-486 | healing keeps ids, order and markers |
| GameRecords.CharsOkUpdate | server/game_state.py:472-484 | changing one character without touching id or marker keeps the order consistent |
| GameRecords.ExecutedMana | server/game_state.py:472 | the caster pays exactly the mana cost, and only its hp may change besides |
| GameRecords.ExecutedClamps | server/game_state.py:475-486 | damage lands only on a known, non-empty target and lowers its hp by the damage but never below 0; without damage on a target it is untouched; the healed character ends at or below its `max_hp` |
| GameRecords.CooledSpec | server/game_state.py:489-492 | a cooldown is stored exactly when the ability has one, and stored cooldowns stay positive |
| GameRecords.CanUseMatchesCheck | server/game_state.py:537-545 | with every stored cooldown positive, `can_use` of an ability the character owns is exactly "`execute_ability` passes its checks" |
| GameRecords.AvailableSpec | server/game_state.py:524-562 | each entry is a known ability the character lists, in its order, with its stored cooldown, and its `can_use` is exactly "`execute_ability` passes its checks" |
| GameSession.GameState.constructor | server/models.py:106-117 | a new session state: turn 0, no active character, no characters, players, sheets or history, not in combat, with the given marker pool and game system |
| GameSession.GameStateManager.constructor | server/game_state.py:27-37 | a manager with the loaded abilities and templates, no cooldowns and an empty session |
| GameSession.GameStateManager.CreateSheet | server/game_state.py:133-146 | a DRAFT sheet for the player is stored under the new id |
| GameSession.GameStateManager.UpdateSheet | server/game_state.py:148-169 | returns the edited sheet, or None for an unknown sheet, a non-owner who is not GM, or an IN_GAME sheet; only that sheet changes |
| GameSession.GameStateManager.SubmitSheet | server/game_state.py:171-184 | succeeds exactly as `Submitted` allows and then stores the PENDING sheet |
| GameSession.GameStateManager.ApproveSheet | server/game_state.py:186-197 | succeeds exactly from PENDING and then stores the APPROVED sheet without a rejection reason |
| GameSession.GameStateManager.RejectSheet | server/game_state.py:199-213 | succeeds exactly from PENDING and then stores the REJECTED sheet with the reason |
| GameSession.GameStateManager.Save | server/game_state.py:164-206 | stores the outcome of an edit, submit, approve or reject, keeping the pool invariant |
| GameSession.GameStateManager.AssignToken | server/game_state.py:215-236 | an APPROVED sheet takes a marker out of the pool and goes IN_GAME; otherwise nothing changes |
| GameSession.GameStateManager.AddPlayer | server/game_state.py:271-276 | the new player is registered under its id |
| GameSession.GameStateManager.RemovePlayer | server/game_state.py:278-286 | a known player leaves and every character it owned is released; an unknown id changes nothing |
| GameSession.GameStateManager.ReleaseOwned | server/game_state.py:283-285 | the loop over the characters computes `Released` |
| GameSession.GameStateManager.AssignCharacterToPlayer | server/game_state.py:288-299 | succeeds exactly when both ids are known (as written); on success it applies the corrected assignment of "## Findings", which links player and character both ways and also releases the character from any former player, a step the code announces but omits; players and characters stay linked consistently |
| GameSession.GameStateManager.FindCharacter | server/game_state.py:308-312 | the search loop computes `FindByMarker` |
| GameSession.GameStateManager.AddCharacterFromMarker | server/game_state.py:303-352 | moves the character carrying the marker, or creates one from the marker's template (with empty cooldowns), or returns None when there is no template |
| GameSession.GameStateManager.MoveCharacter | server/game_state.py:314-316 | the character carrying the marker gets the new position and nothing else changes |
| GameSession.GameStateManager.StoreNew | server/game_state.py:346-347 | a character whose marker no other carries is stored under its id with empty cooldowns, and the registry stays consistent |
| GameSession.GameStateManager.RemoveCharacterByMarker | server/game_state.py:354-369 | the character carrying the marker leaves with its cooldowns; afterwards no character carries the marker |
| GameSession.GameStateManager.StartCombat | server/game_state.py:380-396 | combat on, turn 1, initiative in character insertion order, and the first one active when there is one |
| GameSession.GameStateManager.EndCombat | server/game_state.py:398-404 | combat off, no initiative order and no active character |
| GameSession.GameStateManager.NextTurn | server/game_state.py:406-432 | a no-op outside combat or without an order; otherwise the active character's cooldowns tick, and the next character becomes active with the turn advancing on wrap-around, or the `ValueError` of `list.index` is reported when the active id is not in the order |
| GameSession.GameStateManager.TickCooldowns | server/game_state.py:413-417 | the cooldown loop leaves exactly `Tick` of the old cooldowns |
| GameSession.GameStateManager.ExecuteAbility | server/game_state.py:436-520 | refused with nothing changed on the first failing check in the source's order; otherwise mana is spent, damage and healing are applied, the cooldown is stored and one action is recorded |
| GameSession.GameStateManager.Perform | server/game_state.py:471-504 | after the checks: mana is spent, damage and healing are applied, the cooldown is stored and one action is recorded |
| GameSession.GameStateManager.AvailableAbilities | server/game_state.py:524-562 | no entries for an unknown character; otherwise the entries `Available` describes |
| GameSession.ReleasedByKeys | server/game_state.py:283-285 | visiting every key in order releases every character |
| TileCatalog.CategoriesComplete | tools/organize_tiles.py:112-120 | every tile category has a style in `CATEGORY_INFO`, so the lookup never raises `KeyError` |
| OrganizeTiles.FirstThumb | tools/organize_tiles.py:180-184 | a thumbnail found comes from a pair whose original is the tile, and none is found only when no pair names it |
| OrganizeTiles.FirstThumbAt | tools/organize_tiles.py:181-184 | the search returns the thumbnail at the first position that names the tile |
| OrganizeTiles.ThumbnailOffset | tools/organize_tiles.py:100-110 | every tile from 11 to 75 gets the thumbnail 65 above it, and no other tile gets one |
| OrganizeTiles.TileTableKeys | tools/organize_tiles.py:16-97 | the tile table holds exactly the tiles 11 to 75 |
| OrganizeTiles.EntrySpec | tools/organize_tiles.py:176-205 | a tile's entry has the id `tile_<n>` and the file `/assets/tiles/battletech/<n>.png`; name, category and terrain values are copied; colour and icon come from its category; both blocking flags appear exactly when the tile blocks line of sight; `special` and `size` appear only when non-empty; the thumbnail appears exactly when the first pair for the tile has a non-zero number |
| OrganizeTiles.FirstAt | tools/organize_tiles.py:181-184 | given a position naming the tile, the first such position exists at or before it |
| OrganizeTiles.FindThumbnail | tools/organize_tiles.py:180-184 | the loop with `break` computes `FirstThumb` |
| OrganizeTiles.GenerateConfig | tools/organize_tiles.py:155-207 | the header fields are fixed, the categories are copied exactly, there is one entry per tile keyed by its id, and no other keys |
| OrganizeTiles.CopyCategories | tools/organize_tiles.py:168-173 | the categories section is a copy of `CATEGORY_INFO` |
| OrganizeTiles.TileIdInjective | tools/organize_tiles.py:207 | different tiles get different ids, so no entry overwrites another |
| SinglesConfig.ParseInt | tools/generate_tiles_config.py:100-103 | `int()` of a string of decimal digits is its value |
| SinglesConfig.ParseIntOfDigits | tools/generate_tiles_config.py:100-103 | `int()` reads digits as their value, and digits after a minus sign as the negated value |
| SinglesConfig.ParseIntRoundTrip | tools/generate_tiles_config.py:100-103 | reading back `str(n)` gives `n` |
| SinglesConfig.BeforeUnderscore | tools/generate_tiles_config.py:100 | the first component of `split("_")` has no `_` and is a prefix of the stem |
| SinglesConfig.SplitStemPair | tools/generate_tiles_config.py:99-104 | splitting `b_i` gives back `b` and the index `i` |
| SinglesConfig.SplitStemTriple | tools/generate_tiles_config.py:100-101 | a third component after a second `_` does not change base or index |
| SinglesConfig.IndexOfAfter | tools/generate_tiles_config.py:99-101 | the first `_` of `b_i` is right after `b` |
| SinglesConfig.TileForSpec | tools/generate_tiles_config.py:99-123 | a known tile's stem `b_i` gives the entry `bt_b_i` named "<name> #i", with its category, terrain values and file, grouped under `str(b)` when `i` is non-empty; the stem `b` gives the tile's own name and no group; an unknown tile is skipped |
| SinglesConfig.IntTextNoUnderscore | tools/generate_tiles_config.py:99 | `str(n)` contains no `_` |
| SinglesConfig.MissingTiles | tools/generate_tiles_config.py:12-75 | tiles 26, 58 and 75 have no entry and are skipped; every other tile from 11 to 74 has one |
| SinglesConfig.MadeId | tools/generate_tiles_config.py:114 | an entry's id is `bt_` followed by its stem |
| SinglesConfig.Collect | tools/generate_tiles_config.py:95-123 | the first stem whose base is not a number stops the script; otherwise every entry made is stored under its id and nothing else is stored |
| SinglesConfig.Generate | tools/generate_tiles_config.py:95-123 | the file loop fails exactly when some stem's base is not a number; otherwise every entry made is stored under `bt_<stem>` and every key comes from such an entry |
| SinglesConfig.PrefixCancels | tools/generate_tiles_config.py:114 | equal ids with the same prefix come from the same stem |
| TileSizes.FirstMatch | tools/update_tile_sizes.py:29-86 | the rule chosen matches and no earlier rule does; none is chosen only when no rule matches |
| TileSizes.FirstMatchAt | tools/update_tile_sizes.py:29-86 | a rule that matches with none matching before it is the one chosen |
| TileSizes.FirstMatchShadowed | tools/update_tile_sizes.py:29-86 | a rule covered by an earlier rule is never chosen |
| TileSizes.RoundHalfEven | tools/update_tile_sizes.py:91 | Python's `round` on the exact quotient is the nearest integer, the even one on a tie |
| TileSizes.RoundHalfEvenUnique | tools/update_tile_sizes.py:91 | only one integer is nearest with ties to even |
| TileSizes.MulGap | tools/update_tile_sizes.py:91 | multiples of `d` by different integers are at least `d` apart |
| TileSizes.Fallback | tools/update_tile_sizes.py:88-92 | the fallback count is at least 1 and is otherwise the rounded number of basic hex areas |
| TileSizes.FallbackOne | tools/update_tile_sizes.py:88-92 | the fallback gives one hex exactly when the area is under one and a half basic areas |
| TileSizes.RulesCountPositive | tools/update_tile_sizes.py:33-86 | every rule's count is at least 1 |
| TileSizes.HexCount | tools/update_tile_sizes.py:29-92 | `get_hex_count` always gives a count of at least 1 |
| TileSizes.SmallIsSingle | tools/update_tile_sizes.py:33-34 | at most 250 by 220 pixels is a single hex |
| TileSizes.MegaSize | tools/update_tile_sizes.py:69-70 | 1050-1150 by 1100-1200 pixels is (7, "mega") |
| TileSizes.AlternateMegaCovered | tools/update_tile_sizes.py:69-74 | every size the alternate mega rule matches, the mega rule matches too |
| TileSizes.AlternateMegaUnreachable | tools/update_tile_sizes.py:69-74 | the alternate mega rule is never the one chosen |
| TileSizes.H3Size | tools/update_tile_sizes.py:77-78 | 1050-1150 by 700-800 pixels gives (4, "h3") |
| TileSizes.NarrowRules | tools/update_tile_sizes.py:33-82 | no rule before the last reaches a width of 2000 pixels |
| TileSizes.H5Size | tools/update_tile_sizes.py:85-86 | 2000-2200 by 1100-1200 pixels gives (10, "h5") |
| TileSizes.UnmatchedIsFallback | tools/update_tile_sizes.py:88-92 | a size no rule covers gets the fallback count and the shape "unknown" |
| TileSizes.Basename | tools/update_tile_sizes.py:112 | the base name has no `/`, ends the path, and is preceded by a `/` when shorter than it |
| TileSizes.StepOf | tools/update_tile_sizes.py:106-123 | a tile is updated only when it has a text `file` whose image is found and a `name`; it can crash only with a truthy `file` |
| TileSizes.AppliedSpec | tools/update_tile_sizes.py:126-134 | a multi-hex count sets `hexCount` and `shape`; a single hex removes `hexCount`, `shape` and `size`; every other field keeps its value |
| TileSizes.StepOfApplied | tools/update_tile_sizes.py:106-135 | updating a tile keeps its `file` and `name`, so a second pass takes the same step |
| TileSizes.AppliedIdempotent | tools/update_tile_sizes.py:126-134 | applying the same result twice changes nothing more |
| TileSizes.FinalIdempotent | tools/update_tile_sizes.py:106-135 | running the script a second time changes nothing more |
| TileSizes.UpdateTile | tools/update_tile_sizes.py:106-135 | one loop pass fails exactly when the tile crashes, and otherwise leaves the tile `Final` |
| TileSizes.UpdateTiles | tools/update_tile_sizes.py:95-139 | the loop fails exactly when some tile crashes; otherwise the same tile ids remain, each tile as `Final` |

## Left out

- Floating point. Reals are exact rationals. `np.sqrt`, `arctan2`, `sin`, `cos` and `degrees` are fields of the `Numerics` values, with only their range assumed by the lemmas that need it.
- SortRecords.CircularMean: states only the [0, 360) range, because the trigonometry behind it is an oracle.
- SimpleRecords.Turned: states only the [0, 360) range of the smoothed angle, for the same reason.
- The OpenCV homography solve and `perspectiveTransform` are the `Cv` oracle (`Camera.CalibrationData.TransformPoint`, `Detector.PixelToGame`).
- `cv2.findHomography` either raises, returns no matrix, or returns one. The `try`/`except` around it is modelled by that outcome.
- Camera and network I/O are not modelled. This covers `connect`, streaming, the capture loop, marker detection in images, overlays, JPEG and base64 encoding, WebSockets and `send_markers`. They are camera and network plumbing.
- Threads and locks are not modelled, because every operation is modelled as one sequential step.
- YOLO inference and drawing are not modelled. `Yolo.YoloDetector.Detect` takes the boxes the model returned.
  - Pixel coordinates, widths, centres and confidence rounding are not modelled. Only the fields that the naming and filtering touch are kept.
  - Colours (`get_color`) are not modelled.
- Yolo.Normalized: does not apply the final `round(..., 4)`, because it is a float formatting step.
- Yolo.YoloDetector.constructor: the ignored class ids are a constructor parameter. The source hard-codes them to 56-66 and 72 (`vision/yolo_detector.py:118-122`), and the lemmas hold for any set.
- Figurine mode is a constructor parameter. The source hard-codes it to `False` (`vision/yolo_detector.py:113`), and the lemmas cover both values.
- The calibration applied inside `detect` is not modelled. Its normalisation is `Yolo.Normalized`.
- The clock is a parameter `now` wherever `time.time()` or `datetime.now()` is read. `first_seen`, `created_at`, `updated_at` and `approved_at` are not recorded on sheets.
- Random ids are parameters: the sheet id (`uuid4()[:8]`), the character id suffix (`uuid4().hex[:6]`) and the session id.
- `OrientationDetector` (`server/tracker.py:317-416`) is not part of this model. It is OpenCV image analysis.
- `to_dict` and the other serialisers are not modelled. They are output formatting. This covers `_serialize_sheet`, `_serialize_datetime` and `get_full_state`.
- The `_notify_change` callbacks and all `print` output are not modelled. They have no effect on the state.
- The ability's visual effect, sound and animation fields are not modelled.
- The display messages of `ActionResult` are not modelled. Its success flag, damage, healing and cooldown fields are.
- Read-only queries that are plain filters over the state are not modelled. They are `get_all_tracks`, `get_visible_miniatures`, `get_all_miniatures`, `get_status`, `get_player_sheet`, `get_pending_sheets`, `get_approved_sheets` and `get_character_by_marker`. The last one is the same search as `GameRecords.FindByMarker`.
- Game system and map persistence are not modelled. This covers `set_game_system`, `get_available_systems`, `get_system_config`, `_load_config` and the map methods. They are file I/O. The abilities and templates are constructor parameters.
- `server/models.py` declares neither the marker pool, nor the game system, nor `CharacterSheet` and `CharacterStatus` (`server/game_state.py:13-16`). Their shapes follow their use in `server/game_state.py`. The initial pool and game system are constructor parameters.
- GameSession.GameStateManager.constructor: requires the initial marker pool to hold no repeats, which the source never checks because it never fills `available_markers`. With a repeated marker, `list.remove` at `server/game_state.py:229` drops only its first copy, so a later approved sheet can take the same marker again; the no-double-assignment promise of `GameRecords.PoolOkToken` covers only repeat-free pools.
- GameSession.GameStateManager.AssignCharacterToPlayer: follows the corrected assignment recorded under "## Findings" (`GameRecords.AssignedToPlayer`), so it clears the former player's `character_id`, which `server/game_state.py:292-298` as written does not. The code as written is `GameRecords.AssignedAsWritten`.
- SortTracker.SORTTracker.Valid: the SORT model covers only positive `iou_threshold` and `distance_threshold`, as every configuration in the repository uses. With `iou_threshold <= 0`, `_match` never stops (see "## Findings"); with `distance_threshold == 0`, `server/tracker.py:172` divides by zero and numpy yields inf or nan scores, which reals cannot express.
- Integers are unbounded, as in Python. No width applies.
- `int()` in `tools/generate_tiles_config.py` accepts surrounding whitespace and non-ASCII digits. The model accepts only an optional sign and ASCII digits, because stems of the tile files do not carry those.
- TileSizes.Basename: splits on `/` only, so Windows separators are not modelled.
- TileSizes.StepOf: `Value` has no list or object case. A non-empty list or object behaves as a truthy non-text value and raises; an empty one behaves as a falsy value (`Null`), so the tile is skipped (`tools/update_tile_sizes.py:106-108`). The exact Python error is not modelled.
- The `Image.open` size read is the `sizes` map from file name to pixel size. A file that is absent from the map is "not found".
- The unused `TILE_SIZES` table (`tools/update_tile_sizes.py:18-26`) is not modelled, because nothing reads it.
- TileSizes.Fallback: rounds the exact quotient `w*h / (4*223*194)` half to even. The source rounds the float quotient, which can differ in the last bit.
- JSON file reading and writing, key order in the written files, and directory scanning are not modelled.
  - `sorted(glob)` is the `stems` sequence given to `SinglesConfig.Generate`.
  - The file copying of `organize_tiles()` is not modelled either.

## Findings

| source | as written | input that shows it | evidently intended | confidence | as-written member | corrected member |
|---|---|---|---|---|---|---|
| server/game_state.py:288-299 | `assign_character_to_player` sets the character's owner and the player's character, but never clears the previous player's `character_id`, although its comment announces that step | player p1 owns character c and names it; `assign_character_to_player("p2", "c")` leaves p1 still naming c while c's owner is p2 | the previous player lets go of the character, so every player that names a character is its owner | not executed | GameRecords.AssignedAsWrittenUnlinks | GameRecords.AssignedToPlayerSpec |
| server/tracker.py:236-254 | `_match` loops `while True` and leaves only when the largest remaining score is below `iou_threshold`; zeroing a committed row and column never makes that happen when the threshold is 0 or below | a 1x1 score matrix [[0.5]] with `iou_threshold = 0`: the first round commits (0, 0) and zeroes the matrix, and every later round finds the maximum 0 >= 0, commits (0, 0) again and changes nothing, forever | the loop stops once no unmatched detection and track score at least a positive threshold, committing each detection and each track at most once | not executed | SortMatching.ZeroThresholdRepeats | SortMatching.GreedyAtMostOnce |
