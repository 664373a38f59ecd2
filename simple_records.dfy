/**
 * Value-level view of the distance-only tracker in server/simple_tracker.py:
 * the record a `TrackedMini` holds, the nearest-track search of
 * `SimpleTracker.update`, and what one frame does to the list of records.
 * The classes in simple_tracker.dfy are proved against these definitions.
 *
 * Centre distances are compared through their squares: for a non-negative
 * distance `dist = sqrt(d2)`, `dist < best` is `d2 < best2` and
 * `dist < max_distance` is `max_distance > 0 and d2 < max_distance ** 2`.
 */
module SimpleRecords {
  import opened Wrappers
  import opened Seqs
  import SortRecords

  type Box = SortRecords.Box
  type Numerics = SortRecords.Numerics

  /** A centre `(x, y)`; a new track takes the detection's own centre, which need not be integral. */
  datatype Centre = Centre(x: real, y: real)

  /**
   * One detection of a frame: its `center` and `bbox` entries and the optional
   * `orientation` (default 0.0) and `confidence` (default 1.0).
   */
  datatype MiniDet = MiniDet(center: Centre, bbox: Box, orientation: Option<real>, confidence: Option<real>)

  /** The constructor arguments of `SimpleTracker`. */
  datatype SimpleConfig = SimpleConfig(maxDistance: real, maxMissing: int)

  /** The defaults `max_distance=100, max_missing=30`. */
  const DefaultConfig := SimpleConfig(100.0, 30)

  /** `orientation_history` is a `deque(maxlen=10)`. */
  const OrientationHistoryLen := 10

  /** The record a `TrackedMini` holds. */
  datatype MiniRec = MiniRec(
    id: int,
    bbox: Box,
    center: Centre,
    orientation: real,
    confidence: real,
    orientationHistory: seq<real>,
    lastSeen: real,
    framesMissing: nat)

  /** `((x1 + x2) // 2, (y1 + y2) // 2)`. */
  function FloorCentre(b: Box): (c: Centre)
    ensures 2.0 * c.x <= (b.x1 + b.x2) as real < 2.0 * c.x + 2.0
    ensures 2.0 * c.y <= (b.y1 + b.y2) as real < 2.0 * c.y + 2.0
  {
    var m := SortRecords.Midpoint(b);
    Centre(m.x as real, m.y as real)
  }

  /** The track a new detection creates at time `now`, with an empty orientation history. */
  function Created(d: MiniDet, id: int, now: real): (r: MiniRec)
    ensures r.id == id && r.center == d.center && r.bbox == d.bbox && r.framesMissing == 0
    ensures r.orientationHistory == [] && r.orientation == d.orientation.GetOr(0.0)
    ensures r.confidence == d.confidence.GetOr(1.0) && r.lastSeen == now
  {
    MiniRec(id, d.bbox, d.center, d.orientation.GetOr(0.0), d.confidence.GetOr(1.0), [], now, 0)
  }

  /**
   * `TrackedMini.update` at time `now`: new box and confidence, the centre at
   * the floor midpoint of the box, no miss, and the orientation recorded in the
   * 10-long history and re-averaged.
   */
  function Refreshed(r: MiniRec, bbox: Box, orientation: real, confidence: real, now: real, num: Numerics): (u: MiniRec)
    ensures u.id == r.id && u.bbox == bbox && u.center == FloorCentre(bbox)
    ensures u.confidence == confidence && u.lastSeen == now && u.framesMissing == 0
    ensures 1 <= |u.orientationHistory| <= OrientationHistoryLen
    ensures u.orientationHistory[|u.orientationHistory| - 1] == orientation
    ensures 0.0 <= u.orientation < 360.0
  {
    Turned(Placed(r, bbox, confidence, now), orientation, num)
  }

  /** The box, centre, confidence and counters of `update`. */
  function Placed(r: MiniRec, bbox: Box, confidence: real, now: real): MiniRec {
    r.(bbox := bbox, center := FloorCentre(bbox), confidence := confidence, lastSeen := now, framesMissing := 0)
  }

  /** The smoothed orientation of `update` (`_smooth_angle`). */
  function Turned(r: MiniRec, orientation: real, num: Numerics): (u: MiniRec)
    ensures u == r.(orientation := u.orientation, orientationHistory := u.orientationHistory)
    ensures 1 <= |u.orientationHistory| <= OrientationHistoryLen
    ensures u.orientationHistory[|u.orientationHistory| - 1] == orientation
    ensures 0.0 <= u.orientation < 360.0
  {
    var oh := LastN(r.orientationHistory + [orientation], OrientationHistoryLen);
    r.(orientationHistory := oh, orientation := SortRecords.CircularMean(oh, num))
  }

  /** The update of a track with detection `d`, with the defaults of `det.get`. */
  function RefreshedBy(r: MiniRec, d: MiniDet, now: real, num: Numerics): MiniRec {
    Refreshed(r, d.bbox, d.orientation.GetOr(0.0), d.confidence.GetOr(1.0), now, num)
  }

  /** `track.frames_missing += 1`. */
  function Bump(r: MiniRec): (u: MiniRec)
    ensures u.framesMissing == r.framesMissing + 1
    ensures u == r.(framesMissing := u.framesMissing)
  {
    r.(framesMissing := r.framesMissing + 1)
  }

  /** The first loop of `update`: every track misses one more frame. */
  function BumpAll(recs: seq<MiniRec>): (r: seq<MiniRec>)
    ensures |r| == |recs| && forall k :: 0 <= k < |recs| ==> r[k] == Bump(recs[k])
  {
    seq(|recs|, k requires 0 <= k < |recs| => Bump(recs[k]))
  }

  /** The squared distance between two centres. */
  function Dist2(a: Centre, b: Centre): (d: real)
    ensures d >= 0.0
  {
    (a.x - b.x) * (a.x - b.x) + (a.y - b.y) * (a.y - b.y)
  }

  /** `dist < max_distance` for the distance whose square is `d2`. */
  predicate Within(d2: real, maxDistance: real) {
    maxDistance > 0.0 && d2 < maxDistance * maxDistance
  }

  /** Track `k` may take a detection centred at `c`: it is still unused and close enough. */
  predicate Eligible(recs: seq<MiniRec>, used: set<int>, c: Centre, maxDistance: real, k: nat)
    requires k < |recs|
  {
    recs[k].id !in used && Within(Dist2(c, recs[k].center), maxDistance)
  }

  /**
   * The search loop of `update` from position `k` on, with `best` the track
   * found so far: a track replaces it only when strictly closer.
   */
  function Scan(recs: seq<MiniRec>, used: set<int>, c: Centre, maxDistance: real, k: nat, best: Option<nat>): (r: Option<nat>)
    requires k <= |recs| && (best.Some? ==> best.value < k)
    ensures r.Some? ==> r.value < |recs|
    decreases |recs| - k
  {
    if k == |recs| then best
    else Scan(recs, used, c, maxDistance, k + 1, Pick(recs, used, c, maxDistance, k, best))
  }

  /** One step of the search: track `k` replaces `best` when eligible and strictly closer. */
  function Pick(recs: seq<MiniRec>, used: set<int>, c: Centre, maxDistance: real, k: nat, best: Option<nat>): (r: Option<nat>)
    requires k < |recs| && (best.Some? ==> best.value < k)
    ensures r.Some? ==> r.value <= k
  {
    if Eligible(recs, used, c, maxDistance, k) &&
       (best.None? || Dist2(c, recs[k].center) < Dist2(c, recs[best.value].center))
    then Some(k)
    else best
  }

  /** The position of the track a detection centred at `c` takes, if any. */
  function Nearest(recs: seq<MiniRec>, used: set<int>, c: Centre, maxDistance: real): (r: Option<nat>)
    ensures r.Some? ==> r.value < |recs|
  {
    Scan(recs, used, c, maxDistance, 0, None)
  }

  /**
   * `r` is the nearest eligible track among the first `n`, the earliest of the
   * nearest on a tie, and `None` only when none of them is eligible.
   */
  ghost predicate NearestAmong(recs: seq<MiniRec>, used: set<int>, c: Centre, maxDistance: real, n: nat, r: Option<nat>)
    requires n <= |recs|
  {
    (r.None? ==> forall j :: 0 <= j < n ==> !Eligible(recs, used, c, maxDistance, j)) &&
    (r.Some? ==>
      r.value < n && Eligible(recs, used, c, maxDistance, r.value) &&
      forall j :: 0 <= j < n && Eligible(recs, used, c, maxDistance, j) ==>
        Dist2(c, recs[r.value].center) <= Dist2(c, recs[j].center) &&
        (j < r.value ==> Dist2(c, recs[r.value].center) < Dist2(c, recs[j].center)))
  }

  lemma {:induction false} ScanIsNearest(recs: seq<MiniRec>, used: set<int>, c: Centre, maxDistance: real, k: nat, best: Option<nat>)
    requires k <= |recs| && (best.Some? ==> best.value < k)
    requires NearestAmong(recs, used, c, maxDistance, k, best)
    ensures NearestAmong(recs, used, c, maxDistance, |recs|, Scan(recs, used, c, maxDistance, k, best))
    decreases |recs| - k
  {
    if k < |recs| {
      ScanIsNearest(recs, used, c, maxDistance, k + 1, Pick(recs, used, c, maxDistance, k, best));
    }
  }

  /** The search finds the nearest eligible track, the earliest among equals, and fails only when none is eligible. */
  lemma NearestIsNearest(recs: seq<MiniRec>, used: set<int>, c: Centre, maxDistance: real)
    ensures NearestAmong(recs, used, c, maxDistance, |recs|, Nearest(recs, used, c, maxDistance))
  {
    ScanIsNearest(recs, used, c, maxDistance, 0, None);
  }

  /** The characterisation pins the answer down: at most one answer satisfies it. */
  lemma NearestUnique(recs: seq<MiniRec>, used: set<int>, c: Centre, maxDistance: real, r1: Option<nat>, r2: Option<nat>)
    requires NearestAmong(recs, used, c, maxDistance, |recs|, r1)
    requires NearestAmong(recs, used, c, maxDistance, |recs|, r2)
    ensures r1 == r2
  {
  }

  /** The track ids are strictly increasing along the list and below `bound`. */
  ghost predicate IdsOk(recs: seq<MiniRec>, bound: int) {
    (forall i, j :: 0 <= i < j < |recs| ==> recs[i].id < recs[j].id) &&
    (forall i :: 0 <= i < |recs| ==> recs[i].id < bound)
  }

  function IdSet(recs: seq<MiniRec>): set<int> {
    set k | 0 <= k < |recs| :: recs[k].id
  }

  /**
   * One iteration of the detection loop: the nearest eligible track takes the
   * detection and becomes used, or a new track with id `nextId` is created and
   * marked used.
   */
  function Claim(recs: seq<MiniRec>, nextId: int, used: set<int>, d: MiniDet, maxDistance: real, now: real, num: Numerics)
    : (seq<MiniRec>, int, set<int>)
  {
    match Nearest(recs, used, d.center, maxDistance)
    case Some(k) => (recs[k := RefreshedBy(recs[k], d, now, num)], nextId, used + {recs[k].id})
    case None => (recs + [Created(d, nextId, now)], nextId + 1, used + {nextId})
  }

  /** The detection loop of `update`, over the detections in order. */
  function Assign(recs: seq<MiniRec>, nextId: int, used: set<int>, dets: seq<MiniDet>, maxDistance: real, now: real,
                  num: Numerics): (seq<MiniRec>, int, set<int>)
    decreases |dets|
  {
    if dets == [] then (recs, nextId, used)
    else
      var s := Claim(recs, nextId, used, dets[0], maxDistance, now, num);
      Assign(s.0, s.1, s.2, dets[1..], maxDistance, now, num)
  }

  /** `_cleanup`: keeps the tracks missing for at most `maxMissing` frames, in order. */
  function Purge(recs: seq<MiniRec>, maxMissing: int): (r: seq<MiniRec>)
    ensures |r| <= |recs|
    ensures forall k :: 0 <= k < |r| ==> r[k].framesMissing <= maxMissing
  {
    if recs == [] then []
    else
      var last := recs[|recs| - 1];
      Purge(recs[..|recs| - 1], maxMissing) + (if last.framesMissing <= maxMissing then [last] else [])
  }

  /** `SimpleTracker.update`: the records and `next_id` after one frame. */
  function Frame(recs: seq<MiniRec>, nextId: int, dets: seq<MiniDet>, cfg: SimpleConfig, now: real, num: Numerics)
    : (seq<MiniRec>, int)
  {
    var bumped := BumpAll(recs);
    if dets == [] then (Purge(bumped, cfg.maxMissing), nextId)
    else
      var s := Assign(bumped, nextId, {}, dets, cfg.maxDistance, now, num);
      (Purge(s.0, cfg.maxMissing), s.1)
  }

  /** Purging keeps exactly the records missing for at most `maxMissing` frames. */
  lemma {:induction false} PurgeMembers(recs: seq<MiniRec>, maxMissing: int, r: MiniRec)
    ensures r in Purge(recs, maxMissing) <==> r in recs && r.framesMissing <= maxMissing
  {
    if recs != [] {
      var init := recs[..|recs| - 1];
      PurgeMembers(init, maxMissing, r);
      assert recs == init + [recs[|recs| - 1]];
    }
  }

  /** Purging keeps the ids increasing and below the bound. */
  lemma {:induction false} PurgeKeepsIds(recs: seq<MiniRec>, maxMissing: int, bound: int)
    requires IdsOk(recs, bound)
    ensures IdsOk(Purge(recs, maxMissing), bound)
  {
    if recs != [] {
      var init := recs[..|recs| - 1];
      var last := recs[|recs| - 1];
      PurgeKeepsIds(init, maxMissing, bound);
      var p := Purge(init, maxMissing);
      forall k | 0 <= k < |p| ensures p[k].id < last.id {
        PurgeMembers(init, maxMissing, p[k]);
        var i :| 0 <= i < |init| && init[i] == p[k];
      }
    }
  }

  /** Replacing a record by one with the same id keeps the ids. */
  lemma SameIdKeepsIds(recs: seq<MiniRec>, bound: int, k: nat, x: MiniRec)
    requires IdsOk(recs, bound) && k < |recs| && x.id == recs[k].id
    ensures IdsOk(recs[k := x], bound) && IdSet(recs[k := x]) == IdSet(recs)
  {
    assert forall i :: 0 <= i < |recs| ==> recs[k := x][i].id == recs[i].id;
  }

  /** Appending a record with id `bound` keeps the ids in order below `bound + 1`. */
  lemma AppendKeepsIds(recs: seq<MiniRec>, bound: int, x: MiniRec)
    requires IdsOk(recs, bound) && x.id == bound
    ensures IdsOk(recs + [x], bound + 1) && IdSet(recs + [x]) == IdSet(recs) + {bound}
  {
    assert (recs + [x])[|recs|] == x;
    assert forall i :: 0 <= i < |recs| ==> (recs + [x])[i] == recs[i];
  }

  /** One claim keeps the ids in order and takes exactly one id that was not used yet. */
  lemma ClaimTakesOne(recs: seq<MiniRec>, nextId: int, used: set<int>, d: MiniDet, maxDistance: real, now: real,
                      num: Numerics)
    requires IdsOk(recs, nextId) && used <= IdSet(recs)
    ensures IdsOk(Claim(recs, nextId, used, d, maxDistance, now, num).0, Claim(recs, nextId, used, d, maxDistance, now, num).1)
    ensures used <= Claim(recs, nextId, used, d, maxDistance, now, num).2 <= IdSet(Claim(recs, nextId, used, d, maxDistance, now, num).0)
    ensures |Claim(recs, nextId, used, d, maxDistance, now, num).2| == |used| + 1
    ensures |Claim(recs, nextId, used, d, maxDistance, now, num).0| - |recs|
         == Claim(recs, nextId, used, d, maxDistance, now, num).1 - nextId >= 0
  {
    match Nearest(recs, used, d.center, maxDistance)
    case Some(k) =>
      NearestIsNearest(recs, used, d.center, maxDistance);
      SameIdKeepsIds(recs, nextId, k, RefreshedBy(recs[k], d, now, num));
    case None =>
      assert nextId !in IdSet(recs);
      AppendKeepsIds(recs, nextId, Created(d, nextId, now));
  }

  /**
   * The detection loop hands out one distinct id per detection: no track is
   * claimed twice, and every claimed id names a track afterwards.
   */
  lemma {:induction false} AssignTakesOnePerDetection(recs: seq<MiniRec>, nextId: int, used: set<int>, dets: seq<MiniDet>,
                                                     maxDistance: real, now: real, num: Numerics)
    requires IdsOk(recs, nextId) && used <= IdSet(recs)
    ensures var s := Assign(recs, nextId, used, dets, maxDistance, now, num);
      IdsOk(s.0, s.1) && used <= s.2 <= IdSet(s.0) && |s.2| == |used| + |dets| &&
      |s.0| - |recs| == s.1 - nextId >= 0
    decreases |dets|
  {
    if dets != [] {
      var s := Claim(recs, nextId, used, dets[0], maxDistance, now, num);
      ClaimTakesOne(recs, nextId, used, dets[0], maxDistance, now, num);
      AssignTakesOnePerDetection(s.0, s.1, s.2, dets[1..], maxDistance, now, num);
    }
  }

  /** A claim leaves every track it does not take as it was, and the taken one refreshed. */
  lemma ClaimTouchesOne(recs: seq<MiniRec>, nextId: int, used: set<int>, d: MiniDet, maxDistance: real, now: real,
                        num: Numerics, c: nat, s: (seq<MiniRec>, int, set<int>))
    requires IdsOk(recs, nextId) && c < |recs| && s == Claim(recs, nextId, used, d, maxDistance, now, num)
    ensures c < |s.0| && s.0[c].id == recs[c].id
    ensures recs[c].id in s.2 - used ==> s.0[c] == RefreshedBy(recs[c], d, now, num)
    ensures recs[c].id !in s.2 - used ==> s.0[c] == recs[c]
  {
    match Nearest(recs, used, d.center, maxDistance)
    case Some(k) =>
      NearestIsNearest(recs, used, d.center, maxDistance);
      assert k != c ==> recs[k].id != recs[c].id;
    case None =>
  }

  /**
   * Across the detection loop, an existing track nobody claimed is unchanged,
   * and a claimed one ends with no miss (it is refreshed once and then used).
   */
  lemma {:induction false} AssignAgesUnclaimed(recs: seq<MiniRec>, nextId: int, used: set<int>, dets: seq<MiniDet>,
                                              maxDistance: real, now: real, num: Numerics, c: nat)
    requires IdsOk(recs, nextId) && used <= IdSet(recs) && c < |recs|
    ensures c < |Assign(recs, nextId, used, dets, maxDistance, now, num).0|
    ensures Assign(recs, nextId, used, dets, maxDistance, now, num).0[c].id == recs[c].id
    ensures recs[c].id !in Assign(recs, nextId, used, dets, maxDistance, now, num).2 - used ==>
              Assign(recs, nextId, used, dets, maxDistance, now, num).0[c] == recs[c]
    ensures recs[c].id in Assign(recs, nextId, used, dets, maxDistance, now, num).2 - used ==>
              Assign(recs, nextId, used, dets, maxDistance, now, num).0[c].framesMissing == 0
    decreases |dets|
  {
    if dets != [] {
      var s := Claim(recs, nextId, used, dets[0], maxDistance, now, num);
      ClaimTakesOne(recs, nextId, used, dets[0], maxDistance, now, num);
      ClaimTouchesOne(recs, nextId, used, dets[0], maxDistance, now, num, c, s);
      AssignAgesUnclaimed(s.0, s.1, s.2, dets[1..], maxDistance, now, num, c);
      AssignTakesOnePerDetection(s.0, s.1, s.2, dets[1..], maxDistance, now, num);
      var t := Assign(s.0, s.1, s.2, dets[1..], maxDistance, now, num);
      var refreshed := RefreshedBy(recs[c], dets[0], now, num);
      assert refreshed.framesMissing == 0;
      AgesStep(recs[c], s.0[c], t.0[c], used, s.2, t.2, refreshed);
    }
  }

  /** Chains two claim steps for one track: see `AssignAgesUnclaimed`. */
  lemma AgesStep(r0: MiniRec, r1: MiniRec, r2: MiniRec, u0: set<int>, u1: set<int>, u2: set<int>, refreshed: MiniRec)
    requires u0 <= u1 <= u2 && r1.id == r0.id && refreshed.framesMissing == 0
    requires r0.id in u1 - u0 ==> r1 == refreshed
    requires r0.id !in u1 - u0 ==> r1 == r0
    requires r1.id !in u2 - u1 ==> r2 == r1
    requires r1.id in u2 - u1 ==> r2.framesMissing == 0
    ensures r0.id !in u2 - u0 ==> r2 == r0
    ensures r0.id in u2 - u0 ==> r2.framesMissing == 0
  {
  }

  /** The tracks created in a frame get consecutive ids from `next_id`. */
  lemma {:induction false} AssignSpawnsFromNextId(recs: seq<MiniRec>, nextId: int, used: set<int>, dets: seq<MiniDet>,
                                                 maxDistance: real, now: real, num: Numerics, c: nat)
    requires IdsOk(recs, nextId) && used <= IdSet(recs)
    requires |recs| <= c < |Assign(recs, nextId, used, dets, maxDistance, now, num).0|
    ensures Assign(recs, nextId, used, dets, maxDistance, now, num).0[c].id == nextId + (c - |recs|)
    decreases |dets|
  {
    if dets != [] {
      var s := Claim(recs, nextId, used, dets[0], maxDistance, now, num);
      ClaimTakesOne(recs, nextId, used, dets[0], maxDistance, now, num);
      if c < |s.0| {
        assert s.0[c].id == nextId + (c - |recs|) by {
          match Nearest(recs, used, dets[0].center, maxDistance)
          case Some(k) =>
          case None =>
        }
        AssignAgesUnclaimed(s.0, s.1, s.2, dets[1..], maxDistance, now, num, c);
      } else {
        AssignSpawnsFromNextId(s.0, s.1, s.2, dets[1..], maxDistance, now, num, c);
      }
    }
  }

  /** A frame keeps the ids strictly increasing and below `next_id`, which never decreases. */
  lemma FrameKeepsIds(recs: seq<MiniRec>, nextId: int, dets: seq<MiniDet>, cfg: SimpleConfig, now: real, num: Numerics)
    requires IdsOk(recs, nextId)
    ensures var f := Frame(recs, nextId, dets, cfg, now, num);
      IdsOk(f.0, f.1) && f.1 >= nextId
  {
    var bumped := BumpAll(recs);
    assert IdsOk(bumped, nextId);
    if dets == [] {
      PurgeKeepsIds(bumped, cfg.maxMissing, nextId);
    } else {
      var s := Assign(bumped, nextId, {}, dets, cfg.maxDistance, now, num);
      AssignTakesOnePerDetection(bumped, nextId, {}, dets, cfg.maxDistance, now, num);
      PurgeKeepsIds(s.0, cfg.maxMissing, s.1);
    }
  }

  /**
   * A track no detection claimed survives the frame one miss older, and only
   * while it has missed at most `max_missing` frames; on an empty frame this is
   * every track.
   */
  lemma FrameAgesUnclaimed(recs: seq<MiniRec>, nextId: int, dets: seq<MiniDet>, cfg: SimpleConfig, now: real,
                           num: Numerics, c: nat)
    requires IdsOk(recs, nextId) && c < |recs|
    requires dets != [] ==> recs[c].id !in Assign(BumpAll(recs), nextId, {}, dets, cfg.maxDistance, now, num).2
    ensures Bump(recs[c]) in Frame(recs, nextId, dets, cfg, now, num).0 <==> recs[c].framesMissing + 1 <= cfg.maxMissing
  {
    var bumped := BumpAll(recs);
    assert IdsOk(bumped, nextId);
    if dets == [] {
      PurgeMembers(bumped, cfg.maxMissing, Bump(recs[c]));
    } else {
      var s := Assign(bumped, nextId, {}, dets, cfg.maxDistance, now, num);
      AssignAgesUnclaimed(bumped, nextId, {}, dets, cfg.maxDistance, now, num, c);
      PurgeMembers(s.0, cfg.maxMissing, Bump(recs[c]));
    }
  }
}
