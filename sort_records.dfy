/**
 * Value-level view of the SORT tracker in server/tracker.py: boxes, the
 * intersection-over-union and proximity scores, the record a `TrackedObject`
 * holds, and what one frame of `SORTTracker.update` does to the list of records.
 * The classes in sort_tracker.dfy are proved against these definitions.
 */
module SortRecords {
  import opened Wrappers
  import opened Seqs
  import opened SortMatching

  /** An axis-aligned box `(x1, y1, x2, y2)` in integer pixels. */
  datatype Box = Box(x1: int, y1: int, x2: int, y2: int)

  datatype Point = Point(x: int, y: int)

  /**
   * One detection of a frame: its box and the optional `class`, `confidence`
   * and `orientation` keys of the detection dictionary.
   */
  datatype Detection = Detection(bbox: Box, cls: Option<string>, confidence: Option<real>, orientation: Option<real>)

  /** The constructor arguments of `SORTTracker`. */
  datatype SortConfig = SortConfig(maxAge: int, minHits: int, iouThreshold: real, distanceThreshold: real)

  /** The defaults `max_age=30, min_hits=1, iou_threshold=0.15, distance_threshold=100`. */
  const DefaultConfig := SortConfig(30, 1, 0.15, 100.0)

  /**
   * The floating-point numerics the tracker delegates to numpy: the square root
   * of the centre distance, and `degrees(arctan2(mean sin, mean cos))` of a list
   * of angles before its reduction modulo 360.
   */
  datatype Numerics = Numerics(sqrt: real -> real, meanDirection: seq<real> -> real)

  const PositionHistoryLen := 10
  const OrientationHistoryLen := 5
  /** `mark_missing` deactivates a track after this many consecutive misses. */
  const MissLimit := 10

  /** `((x1 + x2) // 2, (y1 + y2) // 2)`: the floor of the box midpoint. */
  function Midpoint(b: Box): (c: Point)
    ensures 2 * c.x <= b.x1 + b.x2 < 2 * c.x + 2
    ensures 2 * c.y <= b.y1 + b.y2 < 2 * c.y + 2
  {
    Point((b.x1 + b.x2) / 2, (b.y1 + b.y2) / 2)
  }

  function Max(a: int, b: int): int { if a >= b then a else b }
  function Min(a: int, b: int): int { if a <= b then a else b }
  function MaxR(a: real, b: real): real { if a >= b then a else b }

  /** The length of the intersection of [lo1, hi1] and [lo2, hi2], or 0. */
  function Overlap(lo1: int, hi1: int, lo2: int, hi2: int): (r: int)
    ensures r >= 0
    ensures r > 0 ==> r <= hi1 - lo1 && r <= hi2 - lo2
  {
    Max(0, Min(hi1, hi2) - Max(lo1, lo2))
  }

  function Area(b: Box): int {
    (b.x2 - b.x1) * (b.y2 - b.y1)
  }

  function Intersection(a: Box, b: Box): int {
    Overlap(a.x1, a.x2, b.x1, b.x2) * Overlap(a.y1, a.y2, b.y1, b.y2)
  }

  /**
   * `SORTTracker._iou`: intersection over union, 0 when the union is not
   * positive. It lies in [0, 1] for every pair of boxes, well-formed or not,
   * and it is 0 when the boxes do not overlap.
   */
  function IoU(a: Box, b: Box): (r: real)
    ensures 0.0 <= r <= 1.0
    ensures Intersection(a, b) == 0 ==> r == 0.0
  {
    var inter := Intersection(a, b);
    var union := Area(a) + Area(b) - inter;
    IntersectionBelowAreas(a, b);
    if union > 0 then RatioAtMostOne(inter, union); inter as real / union as real else 0.0
  }

  lemma RatioAtMostOne(n: int, d: int)
    requires 0 <= n <= d && d > 0
    ensures 0.0 <= n as real / d as real <= 1.0
  {
  }

  lemma MulMono(a: int, b: int, c: int, d: int)
    requires 0 <= a <= c && 0 <= b <= d
    ensures a * b <= c * d
  {
    assert a * b <= c * b;
    assert c * b <= c * d;
  }

  /** A positive intersection is no larger than either box's area. */
  lemma IntersectionBelowAreas(a: Box, b: Box)
    ensures Intersection(a, b) >= 0
    ensures Intersection(a, b) > 0 ==> Intersection(a, b) <= Area(a) && Intersection(a, b) <= Area(b)
  {
    var ox := Overlap(a.x1, a.x2, b.x1, b.x2);
    var oy := Overlap(a.y1, a.y2, b.y1, b.y2);
    MulMono(0, 0, ox, oy);
    if ox * oy > 0 {
      assert ox > 0 && oy > 0;
      MulMono(ox, oy, a.x2 - a.x1, a.y2 - a.y1);
      MulMono(ox, oy, b.x2 - b.x1, b.y2 - b.y1);
    }
  }

  /** The score does not depend on which box is the detection. */
  lemma IoUSymmetric(a: Box, b: Box)
    ensures IoU(a, b) == IoU(b, a)
  {
    assert Intersection(a, b) == Intersection(b, a);
  }

  /** A box overlapping itself with positive area scores exactly 1. */
  lemma IoUSelf(a: Box)
    requires a.x1 < a.x2 && a.y1 < a.y2
    ensures IoU(a, a) == 1.0
  {
    assert Intersection(a, a) == Area(a);
    MulMono(1, 1, a.x2 - a.x1, a.y2 - a.y1);
  }

  /** The real-valued detection centre `((x1 + x2) / 2, (y1 + y2) / 2)`. */
  function CentreX(b: Box): real { (b.x1 + b.x2) as real / 2.0 }
  function CentreY(b: Box): real { (b.y1 + b.y2) as real / 2.0 }

  /**
   * `max(0, 1 - dist / distance_threshold)`, with the Euclidean distance from
   * the detection centre to the track centre taken through the square root.
   */
  function Proximity(d: Box, c: Point, cfg: SortConfig, num: Numerics): (r: real)
    requires cfg.distanceThreshold > 0.0
    ensures r >= 0.0
    ensures r <= 1.0 <== Distance(d, c, num) >= 0.0
    ensures r == 0.0 <== Distance(d, c, num) >= cfg.distanceThreshold
  {
    var q := Distance(d, c, num) / cfg.distanceThreshold;
    if Distance(d, c, num) >= cfg.distanceThreshold then
      DivAtLeastOne(Distance(d, c, num), cfg.distanceThreshold);
      MaxR(0.0, 1.0 - q)
    else MaxR(0.0, 1.0 - q)
  }

  /** `np.sqrt((dcx - tcx)**2 + (dcy - tcy)**2)`. */
  function Distance(d: Box, c: Point, num: Numerics): real {
    var dx := CentreX(d) - c.x as real;
    var dy := CentreY(d) - c.y as real;
    num.sqrt(dx * dx + dy * dy)
  }

  /** The record a `TrackedObject` holds. */
  datatype TrackRec = TrackRec(
    id: int,
    className: string,
    bbox: Box,
    center: Point,
    confidence: real,
    orientation: real,
    positionHistory: seq<Point>,
    orientationHistory: seq<real>,
    lastSeen: real,
    firstSeen: real,
    framesTracked: nat,
    framesMissing: nat,
    isActive: bool,
    velocity: Point)

  /**
   * The combined score `max(iou, 0.5 * proximity)` of a detection against a
   * track with box `bbox` and centre `center`.
   */
  function Score(d: Detection, bbox: Box, center: Point, cfg: SortConfig, num: Numerics): (r: real)
    requires cfg.distanceThreshold > 0.0
    ensures r >= IoU(d.bbox, bbox) && r >= 0.0
    ensures r == IoU(d.bbox, bbox) || r == 0.5 * Proximity(d.bbox, center, cfg, num)
  {
    MaxR(IoU(d.bbox, bbox), 0.5 * Proximity(d.bbox, center, cfg, num))
  }

  /** With a non-negative square root every score lies in [0, 1]. */
  lemma ScoreAtMostOne(d: Detection, t: TrackRec, cfg: SortConfig, num: Numerics)
    requires cfg.distanceThreshold > 0.0
    requires forall x :: x >= 0.0 ==> num.sqrt(x) >= 0.0
    ensures Score(d, t.bbox, t.center, cfg, num) <= 1.0
  {
    var dx := CentreX(d.bbox) - t.center.x as real;
    var dy := CentreY(d.bbox) - t.center.y as real;
    assert dx * dx + dy * dy >= 0.0;
  }

  /**
   * A detection whose box does not overlap the track's box and whose centre is
   * at least `distance_threshold` away scores 0, so it is never matched to it.
   */
  lemma FarScoresZero(d: Detection, t: TrackRec, cfg: SortConfig, num: Numerics)
    requires cfg.distanceThreshold > 0.0
    requires Intersection(d.bbox, t.bbox) == 0
    requires Distance(d.bbox, t.center, num) >= cfg.distanceThreshold
    ensures Score(d, t.bbox, t.center, cfg, num) == 0.0
  {
  }

  lemma DivAtLeastOne(s: real, t: real)
    requires t > 0.0 && s >= t
    ensures s / t >= 1.0
  {
    assert (s / t) * t == s;
  }

  /** The detection-by-track score matrix of one frame. */
  function Scores(dets: seq<Detection>, recs: seq<TrackRec>, cfg: SortConfig, num: Numerics): (m: Matrix)
    requires cfg.distanceThreshold > 0.0
    ensures |m| == |dets| && Rect(m, |recs|)
    ensures forall i, j :: 0 <= i < |dets| && 0 <= j < |recs| ==>
      m[i][j] == Score(dets[i], recs[j].bbox, recs[j].center, cfg, num)
  {
    seq(|dets|, i requires 0 <= i < |dets| =>
      seq(|recs|, j requires 0 <= j < |recs| => Score(dets[i], recs[j].bbox, recs[j].center, cfg, num)))
  }

  /** Python's `x % 360` on a float: the representative of `x` in [0, 360). */
  function Mod360(x: real): (r: real)
    ensures 0.0 <= r < 360.0
    ensures (x - r) / 360.0 == ((x - r) / 360.0).Floor as real
  {
    var q := (x / 360.0).Floor;
    x - 360.0 * q as real
  }

  /** `TrackedObject._circular_mean`: 0 for no angles, else a direction in [0, 360). */
  function CircularMean(angles: seq<real>, num: Numerics): (r: real)
    ensures 0.0 <= r < 360.0
    ensures angles == [] ==> r == 0.0
  {
    if angles == [] then 0.0 else Mod360(num.meanDirection(angles))
  }

  /** A track created by `_create_track` from a detection. */
  function Spawned(d: Detection, id: int, now: real): (r: TrackRec)
    ensures r.id == id && r.bbox == d.bbox && r.center == Midpoint(d.bbox)
    ensures r.framesTracked == 0 && r.framesMissing == 0 && r.isActive
    ensures r.positionHistory == [] && r.orientationHistory == []
  {
    TrackRec(id, d.cls.GetOr("unknown"), d.bbox, Midpoint(d.bbox), d.confidence.GetOr(1.0),
             d.orientation.GetOr(0.0), [], [], now, now, 0, 0, true, Point(0, 0))
  }

  /**
   * `TrackedObject.update`: the box and centre move to the detection, the
   * track counts one more hit and no miss, becomes active again, records the
   * centre in its 10-long position history, and, given an orientation, records
   * it in its 5-long orientation history and re-averages.
   */
  function Matched(r: TrackRec, bbox: Box, confidence: real, orientation: Option<real>, now: real, num: Numerics): (u: TrackRec)
    ensures u.id == r.id && u.className == r.className && u.firstSeen == r.firstSeen
    ensures u.bbox == bbox && u.center == Midpoint(bbox) && u.confidence == confidence && u.lastSeen == now
    ensures u.framesTracked == r.framesTracked + 1 && u.framesMissing == 0 && u.isActive
    ensures 1 <= |u.positionHistory| <= PositionHistoryLen && u.positionHistory[|u.positionHistory| - 1] == u.center
    ensures |u.orientationHistory| <= OrientationHistoryLen || u.orientationHistory == r.orientationHistory
    ensures r.positionHistory != [] ==>
      var prev := r.positionHistory[|r.positionHistory| - 1];
      u.velocity == Point(u.center.x - prev.x, u.center.y - prev.y)
    ensures r.positionHistory == [] ==> u.velocity == r.velocity
    ensures orientation.None? ==> u.orientation == r.orientation && u.orientationHistory == r.orientationHistory
    ensures orientation.Some? ==> (0.0 <= u.orientation < 360.0 && |u.orientationHistory| >= 1 &&
      u.orientationHistory[|u.orientationHistory| - 1] == orientation.value)
  {
    Turned(Moved(r, bbox, confidence, now), orientation, num)
  }

  /** The position part of `TrackedObject.update`. */
  function Moved(r: TrackRec, bbox: Box, confidence: real, now: real): (u: TrackRec)
    ensures u.id == r.id && u.className == r.className && u.firstSeen == r.firstSeen
    ensures u.orientation == r.orientation && u.orientationHistory == r.orientationHistory
    ensures u.bbox == bbox && u.center == Midpoint(bbox) && u.confidence == confidence && u.lastSeen == now
    ensures u.framesTracked == r.framesTracked + 1 && u.framesMissing == 0 && u.isActive
    ensures 1 <= |u.positionHistory| <= PositionHistoryLen && u.positionHistory[|u.positionHistory| - 1] == u.center
    ensures r.positionHistory != [] ==>
      var prev := r.positionHistory[|r.positionHistory| - 1];
      u.velocity == Point(u.center.x - prev.x, u.center.y - prev.y)
    ensures r.positionHistory == [] ==> u.velocity == r.velocity
  {
    Seen(Placed(Recorded(r, Midpoint(bbox)), bbox, confidence), now)
  }

  /** The position history with centre `c` appended (at most ten kept) and the velocity it gives. */
  function Recorded(r: TrackRec, c: Point): TrackRec {
    var hist := LastN(r.positionHistory + [c], PositionHistoryLen);
    r.(positionHistory := hist, velocity := Velocity(hist, r.velocity))
  }

  /** The new box, its centre and the new confidence. */
  function Placed(r: TrackRec, bbox: Box, confidence: real): TrackRec {
    r.(bbox := bbox, center := Midpoint(bbox), confidence := confidence)
  }

  /** The counters of a track seen at time `now`. */
  function Seen(r: TrackRec, now: real): TrackRec {
    r.(lastSeen := now, framesTracked := r.framesTracked + 1, framesMissing := 0, isActive := true)
  }

  /** The velocity once the last position of `hist` is recorded: the last step, or `v` if there is none. */
  function Velocity(hist: seq<Point>, v: Point): Point {
    if |hist| >= 2 then
      var last := hist[|hist| - 1];
      var prev := hist[|hist| - 2];
      Point(last.x - prev.x, last.y - prev.y)
    else v
  }

  /** The orientation part of `TrackedObject.update`. */
  function Turned(r: TrackRec, orientation: Option<real>, num: Numerics): (u: TrackRec)
    ensures u == r.(orientation := u.orientation, orientationHistory := u.orientationHistory)
    ensures |u.orientationHistory| <= OrientationHistoryLen || u.orientationHistory == r.orientationHistory
    ensures orientation.None? ==> u == r
    ensures orientation.Some? ==> (0.0 <= u.orientation < 360.0 && |u.orientationHistory| >= 1 &&
      u.orientationHistory[|u.orientationHistory| - 1] == orientation.value)
  {
    if orientation.None? then r
    else
      var oh := LastN(r.orientationHistory + [orientation.value], OrientationHistoryLen);
      r.(orientationHistory := oh, orientation := CircularMean(oh, num))
  }

  /** The update of a matched track with detection `d` (`confidence` defaults to 1.0). */
  function MatchedBy(r: TrackRec, d: Detection, now: real, num: Numerics): TrackRec {
    Matched(r, d.bbox, d.confidence.GetOr(1.0), d.orientation, now, num)
  }

  /**
   * `TrackedObject.mark_missing`: one more miss; the track turns inactive once
   * it has missed more than 10 frames in a row, whatever `max_age` is.
   */
  function Missed(r: TrackRec): (u: TrackRec)
    ensures u == r.(framesMissing := u.framesMissing, isActive := u.isActive)
    ensures u.framesMissing == r.framesMissing + 1
    ensures u.isActive <==> r.isActive && r.framesMissing + 1 <= MissLimit
  {
    r.(framesMissing := r.framesMissing + 1,
       isActive := if r.framesMissing + 1 > MissLimit then false else r.isActive)
  }

  /** Every record misses the frame. */
  function MissAll(recs: seq<TrackRec>): (r: seq<TrackRec>)
    ensures |r| == |recs| && forall k :: 0 <= k < |recs| ==> r[k] == Missed(recs[k])
  {
    seq(|recs|, k requires 0 <= k < |recs| => Missed(recs[k]))
  }

  /** `n` consecutive misses. */
  function MissedTimes(r: TrackRec, n: nat): TrackRec {
    if n == 0 then r else Missed(MissedTimes(r, n - 1))
  }

  /**
   * After `n` misses in a row a track has `n` more misses, and it is active
   * exactly when it was and the count is still within the limit of 10.
   */
  lemma {:induction false} MissedTimesState(r: TrackRec, n: nat)
    ensures MissedTimes(r, n).framesMissing == r.framesMissing + n
    ensures MissedTimes(r, n).isActive <==> r.isActive && (n == 0 || r.framesMissing + n <= MissLimit)
    ensures MissedTimes(r, n).id == r.id && MissedTimes(r, n).framesTracked == r.framesTracked
  {
    if n > 0 {
      MissedTimesState(r, n - 1);
    }
  }

  /** `TrackedObject.predict_position`: the centre moved on by one velocity step. */
  function PredictPosition(r: TrackRec): Point {
    Point(r.center.x + r.velocity.x, r.center.y + r.velocity.y)
  }

  /**
   * Once a track has been seen before, the prediction after a match continues
   * the last step: the new centre plus its displacement from the previous one.
   */
  lemma PredictExtrapolates(r: TrackRec, d: Detection, now: real, num: Numerics)
    requires r.positionHistory != []
    ensures var u := MatchedBy(r, d, now, num);
      var prev := r.positionHistory[|r.positionHistory| - 1];
      PredictPosition(u) == Point(2 * u.center.x - prev.x, 2 * u.center.y - prev.y)
  {
  }

  /** `_get_active_tracks`: active tracks hit at least `min_hits` times, in order. */
  function Active(recs: seq<TrackRec>, minHits: int): (r: seq<TrackRec>)
    ensures |r| <= |recs|
    ensures forall k :: 0 <= k < |r| ==> r[k].isActive && r[k].framesTracked >= minHits
  {
    if recs == [] then []
    else (if recs[0].isActive && recs[0].framesTracked >= minHits then [recs[0]] else [])
         + Active(recs[1..], minHits)
  }

  /** The active query returns exactly the active tracks hit at least `minHits` times. */
  lemma {:induction false} ActiveMembers(recs: seq<TrackRec>, minHits: int, x: TrackRec)
    ensures x in Active(recs, minHits) <==> x in recs && x.isActive && x.framesTracked >= minHits
  {
    if recs != [] {
      ActiveMembers(recs[1..], minHits, x);
      assert recs == [recs[0]] + recs[1..];
    }
  }

  /** The active query decides on each track independently and keeps their order. */
  lemma {:induction false} ActiveAppend(recs: seq<TrackRec>, x: TrackRec, minHits: int)
    ensures Active(recs + [x], minHits) ==
      Active(recs, minHits) + (if x.isActive && x.framesTracked >= minHits then [x] else [])
  {
    if recs == [] {
      assert [x][1..] == [];
    } else {
      assert (recs + [x])[1..] == recs[1..] + [x];
      ActiveAppend(recs[1..], x, minHits);
    }
  }

  /** A record kept by `_cleanup`. */
  predicate Kept(r: TrackRec, maxAge: int) {
    r.isActive && r.framesMissing <= maxAge
  }

  /** `_cleanup`: drops inactive tracks and tracks missing for more than `max_age` frames. */
  function Cleanup(recs: seq<TrackRec>, maxAge: int): (r: seq<TrackRec>)
    ensures |r| <= |recs|
    ensures forall k :: 0 <= k < |r| ==> Kept(r[k], maxAge)
  {
    if recs == [] then []
    else (if Kept(recs[0], maxAge) then [recs[0]] else []) + Cleanup(recs[1..], maxAge)
  }

  /** Cleanup keeps exactly the surviving records: every kept record was there. */
  lemma {:induction false} CleanupMembers(recs: seq<TrackRec>, maxAge: int, r: TrackRec)
    ensures r in Cleanup(recs, maxAge) <==> r in recs && Kept(r, maxAge)
  {
    if recs != [] {
      CleanupMembers(recs[1..], maxAge, r);
      assert recs == [recs[0]] + recs[1..];
    }
  }

  /** Cleanup walks the list front to back: a record appended last is kept or dropped on its own. */
  lemma {:induction false} CleanupAppend(recs: seq<TrackRec>, r: TrackRec, maxAge: int)
    ensures Cleanup(recs + [r], maxAge) == Cleanup(recs, maxAge) + (if Kept(r, maxAge) then [r] else [])
  {
    if recs == [] {
      assert [r][1..] == [];
    } else {
      assert (recs + [r])[1..] == recs[1..] + [r];
      CleanupAppend(recs[1..], r, maxAge);
    }
  }

  /** The track ids are strictly increasing along the list. */
  ghost predicate IdsIncreasing(recs: seq<TrackRec>) {
    forall i, j :: 0 <= i < j < |recs| ==> recs[i].id < recs[j].id
  }

  ghost predicate IdsBelow(recs: seq<TrackRec>, bound: int) {
    forall i :: 0 <= i < |recs| ==> recs[i].id < bound
  }

  /** Removing tracks keeps the ids increasing and below the bound. */
  lemma {:induction false} CleanupKeepsIds(recs: seq<TrackRec>, maxAge: int, bound: int)
    requires IdsIncreasing(recs) && IdsBelow(recs, bound)
    ensures IdsIncreasing(Cleanup(recs, maxAge)) && IdsBelow(Cleanup(recs, maxAge), bound)
  {
    if recs != [] {
      var rest := recs[1..];
      IdsTail(recs, bound);
      CleanupKeepsIds(rest, maxAge, bound);
      var c := Cleanup(rest, maxAge);
      forall k | 0 <= k < |c| ensures recs[0].id < c[k].id {
        CleanupMembers(rest, maxAge, c[k]);
        var j :| 0 <= j < |rest| && rest[j] == c[k];
        assert rest[j] == recs[j + 1];
      }
      var h := if Kept(recs[0], maxAge) then [recs[0]] else [];
      assert Cleanup(recs, maxAge) == h + c;
      IdsCons(h, c, recs[0], bound);
    }
  }

  /** Dropping the first record keeps the ids increasing and below the bound. */
  lemma IdsTail(recs: seq<TrackRec>, bound: int)
    requires recs != [] && IdsIncreasing(recs) && IdsBelow(recs, bound)
    ensures IdsIncreasing(recs[1..]) && IdsBelow(recs[1..], bound)
  {
    var rest := recs[1..];
    forall i, j | 0 <= i < j < |rest| ensures rest[i].id < rest[j].id {
      assert rest[i] == recs[i + 1] && rest[j] == recs[j + 1];
    }
    forall i | 0 <= i < |rest| ensures rest[i].id < bound {
      assert rest[i] == recs[i + 1];
    }
  }

  /** Putting at most a record `r` below every id of `c` in front keeps the ids increasing and below the bound. */
  lemma IdsCons(h: seq<TrackRec>, c: seq<TrackRec>, r: TrackRec, bound: int)
    requires h == [] || h == [r]
    requires IdsIncreasing(c) && IdsBelow(c, bound) && r.id < bound
    requires forall k :: 0 <= k < |c| ==> r.id < c[k].id
    ensures IdsIncreasing(h + c) && IdsBelow(h + c, bound)
  {
    forall i, j | 0 <= i < j < |h + c| ensures (h + c)[i].id < (h + c)[j].id {
      if i < |h| {
        assert (h + c)[j] == c[j - |h|];
      } else {
        assert (h + c)[i] == c[i - |h|] && (h + c)[j] == c[j - |h|];
      }
    }
    forall i | 0 <= i < |h + c| ensures (h + c)[i].id < bound {
      if i >= |h| {
        assert (h + c)[i] == c[i - |h|];
      }
    }
  }

  /** The tracks `_create_track` makes for detections `idxs`, numbered from `nextId`. */
  function SpawnAll(dets: seq<Detection>, idxs: seq<nat>, nextId: int, now: real): (r: seq<TrackRec>)
    requires forall k :: 0 <= k < |idxs| ==> idxs[k] < |dets|
    ensures |r| == |idxs|
    ensures forall k :: 0 <= k < |idxs| ==> r[k] == Spawned(dets[idxs[k]], nextId + k, now)
  {
    seq(|idxs|, k requires 0 <= k < |idxs| => Spawned(dets[idxs[k]], nextId + k, now))
  }

  /** Creating the track for one more index appends its record, with the next id. */
  lemma SpawnAllExtend(dets: seq<Detection>, idxs: seq<nat>, k: nat, nextId: int, now: real)
    requires k < |idxs| && forall j :: 0 <= j < |idxs| ==> idxs[j] < |dets|
    ensures SpawnAll(dets, idxs[..k + 1], nextId, now)
         == SpawnAll(dets, idxs[..k], nextId, now) + [Spawned(dets[idxs[k]], nextId + k, now)]
  {
    assert idxs[..k + 1][k] == idxs[k];
  }

  /** The detection matched to track column `c` by the committed pairs, if any. */
  function Assigned(g: seq<(nat, nat)>, c: nat): (r: Option<nat>)
    ensures r.None? <==> c !in Cols(g)
    ensures r.Some? ==> exists k :: 0 <= k < |g| && g[k] == (r.value, c)
  {
    if g == [] then None
    else if g[0].1 == c then
      assert g[0] == (g[0].0, c);
      Some(g[0].0)
    else
      var r := Assigned(g[1..], c);
      assert Cols(g) == {g[0].1} + Cols(g[1..]) by {
        assert forall k :: 0 < k < |g| ==> g[k] == g[1..][k - 1];
        assert forall k :: 0 <= k < |g[1..]| ==> g[1..][k] == g[k + 1];
      }
      if r.Some? then
        var k :| 0 <= k < |g[1..]| && g[1..][k] == (r.value, c);
        assert g[k + 1] == (r.value, c);
        r
      else r
  }

  /** The tracks after matching: matched tracks updated, the others missed. */
  function Aged(recs: seq<TrackRec>, dets: seq<Detection>, g: seq<(nat, nat)>, now: real, num: Numerics): (r: seq<TrackRec>)
    requires forall k :: 0 <= k < |g| ==> g[k].0 < |dets|
    ensures |r| == |recs|
  {
    seq(|recs|, c requires 0 <= c < |recs| =>
      match Assigned(g, c)
      case Some(i) =>
        assert i < |dets| by { var k :| 0 <= k < |g| && g[k] == (i, c); }
        MatchedBy(recs[c], dets[i], now, num)
      case None => Missed(recs[c]))
  }

  /** The detections no committed pair uses, in index order. */
  function Unmatched(numDet: nat, g: seq<(nat, nat)>): (r: seq<nat>)
    ensures forall k :: 0 <= k < |r| ==> r[k] < numDet
  {
    var r: seq<nat> := Without(Range(numDet), Rows(g));
    forall k | 0 <= k < |r| ensures r[k] < numDet {
      WithoutMember(Range(numDet), Rows(g), r[k]);
    }
    r
  }

  /** The ids of the records, in order (`list(self.tracks.keys())`). */
  function Ids(recs: seq<TrackRec>): (ids: seq<int>)
    ensures |ids| == |recs| && forall k :: 0 <= k < |recs| ==> ids[k] == recs[k].id
  {
    seq(|recs|, k requires 0 <= k < |recs| => recs[k].id)
  }

  /** The detection that the matched lists pair with track id `id`, if any. */
  function AssignedId(matchedDet: seq<nat>, matchedTrk: seq<int>, id: int): (r: Option<nat>)
    requires |matchedDet| == |matchedTrk|
    ensures r.Some? ==> exists k :: 0 <= k < |matchedTrk| && matchedTrk[k] == id && matchedDet[k] == r.value
    ensures r.None? <==> id !in matchedTrk
  {
    if matchedTrk == [] then None
    else if matchedTrk[0] == id then Some(matchedDet[0])
    else
      var r := AssignedId(matchedDet[1..], matchedTrk[1..], id);
      assert matchedTrk == [matchedTrk[0]] + matchedTrk[1..];
      if r.Some? then
        var k :| 0 <= k < |matchedTrk[1..]| && matchedTrk[1..][k] == id && matchedDet[1..][k] == r.value;
        assert matchedTrk[k + 1] == id && matchedDet[k + 1] == r.value;
        r
      else r
  }

  /** The records after `self.tracks[trk_id].update(...)` for every matched pair. */
  function MatchView(recs: seq<TrackRec>, dets: seq<Detection>, matchedDet: seq<nat>, matchedTrk: seq<int>,
                     now: real, num: Numerics): (r: seq<TrackRec>)
    requires |matchedDet| == |matchedTrk| && forall k :: 0 <= k < |matchedDet| ==> matchedDet[k] < |dets|
    ensures |r| == |recs|
  {
    seq(|recs|, c requires 0 <= c < |recs| =>
      match AssignedId(matchedDet, matchedTrk, recs[c].id)
      case Some(i) => MatchedBy(recs[c], dets[i], now, num)
      case None => recs[c])
  }

  /** The records after `self.tracks[id].update(...)` with detection `d`. */
  function UpdatedById(recs: seq<TrackRec>, id: int, d: Detection, now: real, num: Numerics): (r: seq<TrackRec>)
    ensures |r| == |recs|
  {
    seq(|recs|, c requires 0 <= c < |recs| => if recs[c].id == id then MatchedBy(recs[c], d, now, num) else recs[c])
  }

  /**
   * With distinct ids, records that differ from `recs` only at position `c`,
   * where the track was updated, are `recs` updated by that track's id.
   */
  lemma UpdatedByIdAt(recs: seq<TrackRec>, recs': seq<TrackRec>, c: nat, d: Detection, now: real, num: Numerics)
    requires c < |recs| == |recs'| && forall j :: 0 <= j < |recs| && j != c ==> recs[j].id != recs[c].id
    requires recs'[c] == MatchedBy(recs[c], d, now, num)
    requires forall j :: 0 <= j < |recs| && j != c ==> recs'[j] == recs[j]
    ensures recs' == UpdatedById(recs, recs[c].id, d, now, num)
  {
  }

  /** One more matched pair updates the track with its id, once the id is new to the list. */
  lemma MatchViewExtend(recs: seq<TrackRec>, dets: seq<Detection>, matchedDet: seq<nat>, matchedTrk: seq<int>,
                        k: nat, now: real, num: Numerics)
    requires |matchedDet| == |matchedTrk| && k < |matchedTrk| && matchedTrk[k] !in matchedTrk[..k]
    requires forall j :: 0 <= j < |matchedDet| ==> matchedDet[j] < |dets|
    ensures MatchView(recs, dets, matchedDet[..k + 1], matchedTrk[..k + 1], now, num)
         == UpdatedById(MatchView(recs, dets, matchedDet[..k], matchedTrk[..k], now, num),
                        matchedTrk[k], dets[matchedDet[k]], now, num)
  {
    var before := MatchView(recs, dets, matchedDet[..k], matchedTrk[..k], now, num);
    forall c | 0 <= c < |recs|
      ensures MatchView(recs, dets, matchedDet[..k + 1], matchedTrk[..k + 1], now, num)[c]
           == UpdatedById(before, matchedTrk[k], dets[matchedDet[k]], now, num)[c]
    {
      AssignedIdExtend(matchedDet, matchedTrk, k, recs[c].id);
    }
  }

  /** Extending the matched lists by one pair only changes the assignment of its track id. */
  lemma {:induction false} AssignedIdExtend(matchedDet: seq<nat>, matchedTrk: seq<int>, k: nat, id: int)
    requires |matchedDet| == |matchedTrk| && k < |matchedTrk|
    ensures AssignedId(matchedDet[..k + 1], matchedTrk[..k + 1], id)
         == if id in matchedTrk[..k] then AssignedId(matchedDet[..k], matchedTrk[..k], id)
            else if id == matchedTrk[k] then Some(matchedDet[k])
            else None
  {
    if k > 0 {
      assert matchedDet[..k + 1][1..] == matchedDet[1..][..k];
      assert matchedTrk[..k + 1][1..] == matchedTrk[1..][..k];
      assert matchedDet[..k][1..] == matchedDet[1..][..k - 1];
      assert matchedTrk[..k][1..] == matchedTrk[1..][..k - 1];
      assert matchedTrk[..k] == [matchedTrk[0]] + matchedTrk[1..][..k - 1];
      AssignedIdExtend(matchedDet[1..], matchedTrk[1..], k - 1, id);
    }
  }

  /** The records after `self.tracks[trk_id].mark_missing()` for every id in `ids`. */
  function MissView(recs: seq<TrackRec>, ids: seq<int>): (r: seq<TrackRec>)
    ensures |r| == |recs|
  {
    seq(|recs|, c requires 0 <= c < |recs| => if recs[c].id in ids then Missed(recs[c]) else recs[c])
  }

  /** Marking one more id missing, once it is new to the list, marks exactly the track with that id. */
  lemma MissViewExtend(recs: seq<TrackRec>, ids: seq<int>, k: nat)
    requires k < |ids| && ids[k] !in ids[..k]
    ensures MissView(recs, ids[..k + 1]) == MissView(MissView(recs, ids[..k]), [ids[k]])
  {
    var before := MissView(recs, ids[..k]);
    forall c | 0 <= c < |recs|
      ensures MissView(recs, ids[..k + 1])[c] == MissView(before, [ids[k]])[c]
    {
      assert before[c].id == recs[c].id;
      assert recs[c].id in ids[..k + 1] <==> recs[c].id in ids[..k] || recs[c].id == ids[k];
    }
  }

  /**
   * Updating the tracks by id, then marking the leftover ids missing, is the
   * column-wise aging of `Step`: the id lists of `_match` name the same tracks
   * as the committed columns, because ids are distinct.
   */
  lemma {:induction false} AgedByIds(recs: seq<TrackRec>, dets: seq<Detection>, g: seq<(nat, nat)>,
                                     matchedDet: seq<nat>, matchedTrk: seq<int>, now: real, num: Numerics)
    requires IdsIncreasing(recs) && OneToOne(g)
    requires forall k :: 0 <= k < |g| ==> g[k].0 < |dets| && g[k].1 < |recs|
    requires |matchedDet| == |g| && |matchedTrk| == |g|
    requires forall k :: 0 <= k < |g| ==> matchedDet[k] == g[k].0 && matchedTrk[k] == recs[g[k].1].id
    ensures Elems(matchedDet) == Rows(g)
    ensures MissView(MatchView(recs, dets, matchedDet, matchedTrk, now, num), Without(Ids(recs), Elems(matchedTrk)))
            == Aged(recs, dets, g, now, num)
  {
    var mv := MatchView(recs, dets, matchedDet, matchedTrk, now, num);
    var ut := Without(Ids(recs), Elems(matchedTrk));
    forall c | 0 <= c < |recs|
      ensures MissView(mv, ut)[c] == Aged(recs, dets, g, now, num)[c]
    {
      var id := recs[c].id;
      AssignedIdIsAssigned(recs, g, matchedDet, matchedTrk, c);
      WithoutMember(Ids(recs), Elems(matchedTrk), id);
      assert Ids(recs)[c] == id;
      assert mv[c].id == id;
      if id in Elems(matchedTrk) {
        var k :| 0 <= k < |matchedTrk| && matchedTrk[k] == id;
        assert id in matchedTrk;
      }
    }
    assert forall k :: 0 <= k < |g| ==> matchedDet[k] == g[k].0;
  }

  /** With distinct ids, the id-keyed assignment is the column-keyed one. */
  lemma {:induction false} AssignedIdIsAssigned(recs: seq<TrackRec>, g: seq<(nat, nat)>,
                                               matchedDet: seq<nat>, matchedTrk: seq<int>, c: nat)
    requires IdsIncreasing(recs) && c < |recs|
    requires forall k :: 0 <= k < |g| ==> g[k].1 < |recs|
    requires |matchedDet| == |g| && |matchedTrk| == |g|
    requires forall k :: 0 <= k < |g| ==> matchedDet[k] == g[k].0 && matchedTrk[k] == recs[g[k].1].id
    ensures AssignedId(matchedDet, matchedTrk, recs[c].id) == Assigned(g, c)
  {
    if g != [] {
      if g[0].1 != c {
        assert recs[g[0].1].id != recs[c].id;
      }
      AssignedIdIsAssigned(recs, g[1..], matchedDet[1..], matchedTrk[1..], c);
    }
  }

  /**
   * One frame of `SORTTracker.update` on the records: the new record list and
   * the new `next_id`.
   *  - no detections: every track misses, nothing is created or purged;
   *  - no tracks: one new track per detection, nothing is purged;
   *  - otherwise: greedy matching on the score matrix, matched tracks updated,
   *    the others missed, one new track per unmatched detection, then cleanup.
   */
  function Step(recs: seq<TrackRec>, nextId: int, dets: seq<Detection>, cfg: SortConfig, num: Numerics, now: real): (seq<TrackRec>, int)
    requires cfg.iouThreshold > 0.0 && cfg.distanceThreshold > 0.0
  {
    if dets == [] then (MissAll(recs), nextId)
    else if recs == [] then (SpawnAll(dets, Range(|dets|), nextId, now), nextId + |dets|)
    else StepMatched(recs, nextId, dets, cfg, num, now, Greedy(Scores(dets, recs, cfg, num), |recs|, cfg.iouThreshold, {}, {}))
  }

  /** The frame with detections and tracks, given its greedy matching `g`. */
  function StepMatched(recs: seq<TrackRec>, nextId: int, dets: seq<Detection>, cfg: SortConfig, num: Numerics,
                       now: real, g: seq<(nat, nat)>): (seq<TrackRec>, int)
    requires forall k :: 0 <= k < |g| ==> g[k].0 < |dets|
  {
    var newDets := Unmatched(|dets|, g);
    (Cleanup(Aged(recs, dets, g, now, num) + SpawnAll(dets, newDets, nextId, now), cfg.maxAge), nextId + |newDets|)
  }

  lemma StepMatchedBy(recs: seq<TrackRec>, nextId: int, dets: seq<Detection>, cfg: SortConfig, num: Numerics,
                      now: real, g: seq<(nat, nat)>, grown: seq<TrackRec>)
    requires forall k :: 0 <= k < |g| ==> g[k].0 < |dets|
    requires grown == Aged(recs, dets, g, now, num) + SpawnAll(dets, Unmatched(|dets|, g), nextId, now)
    ensures StepMatched(recs, nextId, dets, cfg, num, now, g).0 == Cleanup(grown, cfg.maxAge)
    ensures StepMatched(recs, nextId, dets, cfg, num, now, g).1 == nextId + |Unmatched(|dets|, g)|
  {
  }

  /** Every detection index is either in a committed pair or left over, never both. */
  lemma UnmatchedPartition(numDet: nat, g: seq<(nat, nat)>)
    ensures Distinct(Unmatched(numDet, g))
    ensures forall i :: 0 <= i < numDet ==> (i in Rows(g) <==> i !in Unmatched(numDet, g))
  {
    assert Distinct(Range(numDet));
    WithoutDistinct(Range(numDet), Rows(g));
    assert Unmatched(numDet, g) == Without(Range(numDet), Rows(g));
    forall i: nat | i < numDet ensures i in Rows(g) <==> i !in Unmatched(numDet, g) {
      WithoutMember(Range(numDet), Rows(g), i);
      assert Range(numDet)[i] == i;
    }
  }

  /**
   * Each detection of a frame with tracks is either matched to exactly one
   * track or spawns exactly one new track, and no detection spawns twice.
   */
  lemma StepPartitionsDetections(recs: seq<TrackRec>, dets: seq<Detection>, cfg: SortConfig, num: Numerics)
    requires cfg.iouThreshold > 0.0 && cfg.distanceThreshold > 0.0
    requires dets != [] && recs != []
    ensures var g := Greedy(Scores(dets, recs, cfg, num), |recs|, cfg.iouThreshold, {}, {});
      OneToOne(g) && Distinct(Unmatched(|dets|, g)) &&
      forall i :: 0 <= i < |dets| ==> (i in Rows(g) <==> i !in Unmatched(|dets|, g))
  {
    var m := Scores(dets, recs, cfg, num);
    GreedyAtMostOnce(m, |recs|, cfg.iouThreshold, {}, {});
    UnmatchedPartition(|dets|, Greedy(m, |recs|, cfg.iouThreshold, {}, {}));
  }

  /**
   * Each existing track of a frame with detections is either updated by its
   * matched detection (one more hit, no miss, active) or marked missing, and it
   * keeps its id.
   */
  lemma StepAgesEveryTrack(recs: seq<TrackRec>, dets: seq<Detection>, cfg: SortConfig, num: Numerics, now: real, c: nat)
    requires cfg.iouThreshold > 0.0 && cfg.distanceThreshold > 0.0
    requires dets != [] && c < |recs|
    ensures var g := Greedy(Scores(dets, recs, cfg, num), |recs|, cfg.iouThreshold, {}, {});
      var u := Aged(recs, dets, g, now, num)[c];
      u.id == recs[c].id &&
      (c in Cols(g) ==> u.framesTracked == recs[c].framesTracked + 1 && u.framesMissing == 0 && u.isActive) &&
      (c !in Cols(g) ==> u == Missed(recs[c]))
  {
  }

  /**
   * A track that is present but inactive (not yet purged) is still scored and
   * can be matched; a match makes it active again.
   */
  lemma StepReactivates(recs: seq<TrackRec>, dets: seq<Detection>, cfg: SortConfig, num: Numerics, now: real, c: nat)
    requires cfg.iouThreshold > 0.0 && cfg.distanceThreshold > 0.0
    requires dets != [] && c < |recs| && !recs[c].isActive
    requires c in Cols(Greedy(Scores(dets, recs, cfg, num), |recs|, cfg.iouThreshold, {}, {}))
    ensures Aged(recs, dets, Greedy(Scores(dets, recs, cfg, num), |recs|, cfg.iouThreshold, {}, {}), now, num)[c].isActive
  {
  }

  /**
   * A frame without detections only ages the tracks: the same tracks in the
   * same order, none purged, even those that turn or already are inactive.
   */
  lemma EmptyFrameKeepsTracks(recs: seq<TrackRec>, nextId: int, cfg: SortConfig, num: Numerics, now: real)
    requires cfg.iouThreshold > 0.0 && cfg.distanceThreshold > 0.0
    ensures var (r, n) := Step(recs, nextId, [], cfg, num, now);
      n == nextId && |r| == |recs| &&
      forall k :: 0 <= k < |r| ==> r[k].id == recs[k].id && r[k].framesMissing == recs[k].framesMissing + 1
  {
  }

  /**
   * A newly created track has no hits yet, so with `min_hits >= 1` the active
   * query hides it until its first match.
   */
  lemma SpawnedHidden(d: Detection, id: int, now: real, minHits: int)
    requires minHits >= 1
    ensures Active([Spawned(d, id, now)], minHits) == []
  {
  }

  /**
   * Ids stay strictly increasing and below `next_id`, and `next_id` never
   * decreases, so an id is never handed out twice.
   */
  lemma StepKeepsIds(recs: seq<TrackRec>, nextId: int, dets: seq<Detection>, cfg: SortConfig, num: Numerics, now: real)
    requires cfg.iouThreshold > 0.0 && cfg.distanceThreshold > 0.0
    requires IdsIncreasing(recs) && IdsBelow(recs, nextId)
    ensures var (r, n) := Step(recs, nextId, dets, cfg, num, now);
      n >= nextId && IdsIncreasing(r) && IdsBelow(r, n)
  {
    if dets != [] && recs != [] {
      var g := Greedy(Scores(dets, recs, cfg, num), |recs|, cfg.iouThreshold, {}, {});
      var newDets := Unmatched(|dets|, g);
      var all := Aged(recs, dets, g, now, num) + SpawnAll(dets, newDets, nextId, now);
      assert forall k :: 0 <= k < |recs| ==> all[k].id == recs[k].id;
      assert forall k :: |recs| <= k < |all| ==> all[k].id == nextId + k - |recs|;
      CleanupKeepsIds(all, cfg.maxAge, nextId + |newDets|);
    }
  }
}
