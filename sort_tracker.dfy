/**
 * The mutable objects of server/tracker.py: `TrackedObject`, whose fields its
 * methods update in place, and `SORTTracker`, which owns the id-keyed track
 * dictionary. The dictionary is a sequence of objects in insertion order,
 * which is increasing id order because ids come from a counter that only grows
 * (or restarts at 1 on `reset`, when the dictionary is emptied).
 */
module SortTracker {
  import opened Wrappers
  import opened Seqs
  import opened SortMatching
  import opened SortRecords

  class TrackedObject {
    const id: int
    var className: string
    var bbox: Box
    var center: Point
    var confidence: real
    var orientation: real
    var positionHistory: seq<Point>
    var orientationHistory: seq<real>
    var lastSeen: real
    var firstSeen: real
    var framesTracked: nat
    var framesMissing: nat
    var isActive: bool
    var velocity: Point

    /** The object's fields as a record. */
    ghost function Rec(): TrackRec
      reads this
    {
      TrackRec(id, className, bbox, center, confidence, orientation, positionHistory, orientationHistory,
               lastSeen, firstSeen, framesTracked, framesMissing, isActive, velocity)
    }

    /** The track `_create_track` builds for detection `d` with id `id` at time `now`. */
    constructor (id: int, d: Detection, now: real)
      ensures Rec() == Spawned(d, id, now)
    {
      this.id := id;
      className := d.cls.GetOr("unknown");
      bbox := d.bbox;
      center := Midpoint(d.bbox);
      confidence := d.confidence.GetOr(1.0);
      orientation := d.orientation.GetOr(0.0);
      positionHistory := [];
      orientationHistory := [];
      lastSeen := now;
      firstSeen := now;
      framesTracked := 0;
      framesMissing := 0;
      isActive := true;
      velocity := Point(0, 0);
    }

    /** `TrackedObject.update` with the clock reading `now`. */
    method Update(bbox: Box, confidence: real, orientation: Option<real>, now: real, num: Numerics)
      modifies this
      ensures Rec() == Matched(old(Rec()), bbox, confidence, orientation, now, num)
    {
      Move(bbox, confidence, now);
      if orientation.Some? {
        Turn(orientation.value, num);
      }
    }

    /** The box, centre, counters, position history and velocity of `update`. */
    method Move(bbox: Box, confidence: real, now: real)
      modifies this
      ensures Rec() == Moved(old(Rec()), bbox, confidence, now)
    {
      Record(Midpoint(bbox));
      Place(bbox, confidence);
      See(now);
    }

    /** Appends centre `c` to the position history and updates the velocity. */
    method Record(c: Point)
      modifies this
      ensures Rec() == Recorded(old(Rec()), c)
    {
      var hist := LastN(positionHistory + [c], PositionHistoryLen);
      velocity := Velocity(hist, velocity);
      positionHistory := hist;
    }

    /** Stores the new box, its centre and the new confidence. */
    method Place(bbox: Box, confidence: real)
      modifies this
      ensures Rec() == Placed(old(Rec()), bbox, confidence)
    {
      this.bbox := bbox;
      center := Midpoint(bbox);
      this.confidence := confidence;
    }

    /** Updates the counters of a track seen at time `now`. */
    method See(now: real)
      modifies this
      ensures Rec() == Seen(old(Rec()), now)
    {
      lastSeen := now;
      framesTracked := framesTracked + 1;
      framesMissing := 0;
      isActive := true;
    }

    /** The smoothed orientation of `update`, given a new reading. */
    method Turn(orientation: real, num: Numerics)
      modifies this
      ensures Rec() == Turned(old(Rec()), Some(orientation), num)
    {
      orientationHistory := LastN(orientationHistory + [orientation], OrientationHistoryLen);
      this.orientation := CircularMean(orientationHistory, num);
    }

    /** `TrackedObject.mark_missing`. */
    method MarkMissing()
      modifies this
      ensures Rec() == Missed(old(Rec()))
    {
      framesMissing := framesMissing + 1;
      if framesMissing > MissLimit {
        isActive := false;
      }
    }
  }

  /** The records of a list of tracks. */
  ghost function RecsOf(ts: seq<TrackedObject>): (r: seq<TrackRec>)
    reads set t | t in ts
    ensures |r| == |ts| && forall k :: 0 <= k < |ts| ==> r[k] == ts[k].Rec()
  {
    seq(|ts|, k requires 0 <= k < |ts| reads set t | t in ts => ts[k].Rec())
  }

  /**
   * The list comprehension of `_get_active_tracks` over a list of tracks: the
   * active tracks hit at least `minHits` times, in order.
   */
  function Confirmed(ts: seq<TrackedObject>, minHits: int): (r: seq<TrackedObject>)
    reads set t | t in ts
    ensures RecsOf(r) == Active(RecsOf(ts), minHits)
  {
    if ts == [] then []
    else
      var h := if ts[0].isActive && ts[0].framesTracked >= minHits then [ts[0]] else [];
      var rest := Confirmed(ts[1..], minHits);
      RecsOfSplit(ts, h, rest);
      h + rest
  }

  lemma RecsOfSplit(ts: seq<TrackedObject>, h: seq<TrackedObject>, rest: seq<TrackedObject>)
    requires ts != [] && (h == [] || h == [ts[0]])
    ensures RecsOf(ts)[1..] == RecsOf(ts[1..])
    ensures RecsOf(h + rest) == (if h == [] then [] else [ts[0].Rec()]) + RecsOf(rest)
  {
  }

  class SORTTracker {
    const config: SortConfig
    const numerics: Numerics
    /** `self.tracks`, in insertion order. */
    var tracks: seq<TrackedObject>
    var nextId: int
    var frameCount: int

    /**
     * The thresholds are positive, and ids are strictly increasing along the
     * dictionary and below `next_id`.
     */
    ghost predicate Valid()
      reads this
    {
      config.iouThreshold > 0.0 && config.distanceThreshold > 0.0 &&
      (forall i, j :: 0 <= i < j < |tracks| ==> tracks[i].id < tracks[j].id) &&
      (forall i :: 0 <= i < |tracks| ==> tracks[i].id < nextId)
    }

    /** The track records, in dictionary order. */
    ghost function View(): seq<TrackRec>
      reads this, set t | t in tracks
    {
      RecsOf(tracks)
    }

    /** `SORTTracker.__init__`: no tracks, `next_id = 1`, `frame_count = 0`. */
    constructor (config: SortConfig, numerics: Numerics)
      requires config.iouThreshold > 0.0 && config.distanceThreshold > 0.0
      ensures Valid() && this.config == config && this.numerics == numerics
      ensures tracks == [] && nextId == 1 && frameCount == 0
    {
      this.config := config;
      this.numerics := numerics;
      tracks := [];
      nextId := 1;
      frameCount := 0;
    }

    /** `list(self.tracks.keys())`. */
    function TrackIds(): (ids: seq<int>)
      reads this
      ensures |ids| == |tracks| && forall k :: 0 <= k < |tracks| ==> ids[k] == tracks[k].id
    {
      seq(|tracks|, k requires 0 <= k < |tracks| reads this => tracks[k].id)
    }

    /** The position of id `id` in the dictionary, searching from position `from`. */
    function FindFrom(id: int, from: nat): (k: int)
      reads this
      requires from <= |tracks|
      ensures k == -1 || (from <= k < |tracks| && tracks[k].id == id)
      ensures k == -1 <==> forall j :: from <= j < |tracks| ==> tracks[j].id != id
      decreases |tracks| - from
    {
      if from == |tracks| then -1
      else if tracks[from].id == id then from
      else FindFrom(id, from + 1)
    }

    /** `SORTTracker.get_track`: the track with id `id`, or None. */
    function GetTrack(id: int): (r: Option<TrackedObject>)
      reads this
      ensures r.Some? ==> r.value in tracks && r.value.id == id
      ensures r.None? <==> forall j :: 0 <= j < |tracks| ==> tracks[j].id != id
    {
      var k := FindFrom(id, 0);
      if k == -1 then None else Some(tracks[k])
    }

    /** `SORTTracker._get_active_tracks`. */
    function ActiveTracks(): (r: seq<TrackedObject>)
      reads this, set t | t in tracks
      ensures RecsOf(r) == Active(View(), config.minHits)
    {
      Confirmed(tracks, config.minHits)
    }

    /** `SORTTracker.reset`. */
    method Reset()
      modifies this
      ensures Valid() <==> config.iouThreshold > 0.0 && config.distanceThreshold > 0.0
      ensures tracks == [] && nextId == 1 && frameCount == 0
    {
      tracks := [];
      nextId := 1;
      frameCount := 0;
    }

    /** The missed-frame branch: `track.mark_missing()` for every track. */
    method MarkAllMissing()
      requires Valid()
      modifies set t | t in tracks
      ensures View() == MissAll(old(View()))
    {
      ghost var v0 := View();
      for k := 0 to |tracks|
        invariant forall j :: 0 <= j < |tracks| ==> tracks[j].Rec() == if j < k then Missed(v0[j]) else v0[j]
      {
        tracks[k].MarkMissing();
      }
    }

    /** `SORTTracker._create_track`: a new track with id `next_id`, which then grows. */
    method CreateTrack(d: Detection, now: real) returns (id: int)
      requires Valid()
      modifies this
      ensures Valid() && frameCount == old(frameCount)
      ensures id == old(nextId) && nextId == old(nextId) + 1
      ensures View() == old(View()) + [Spawned(d, id, now)]
    {
      var t := new TrackedObject(nextId, d, now);
      tracks := tracks + [t];
      nextId := nextId + 1;
      id := t.id;
    }

    /** `for det_idx in idxs: self._create_track(detections[det_idx])`. */
    method CreateTracks(dets: seq<Detection>, idxs: seq<nat>, now: real)
      requires Valid() && forall k :: 0 <= k < |idxs| ==> idxs[k] < |dets|
      modifies this
      ensures Valid() && frameCount == old(frameCount)
      ensures nextId == old(nextId) + |idxs|
      ensures View() == old(View()) + SpawnAll(dets, idxs, old(nextId), now)
    {
      for k := 0 to |idxs|
        invariant Valid() && frameCount == old(frameCount)
        invariant nextId == old(nextId) + k
        invariant View() == old(View()) + SpawnAll(dets, idxs[..k], old(nextId), now)
      {
        SpawnAllExtend(dets, idxs, k, old(nextId), now);
        ghost var spawned := SpawnAll(dets, idxs[..k], old(nextId), now);
        var _ := CreateTrack(dets[idxs[k]], now);
        assert old(View()) + spawned + [Spawned(dets[idxs[k]], old(nextId) + k, now)]
            == old(View()) + (spawned + [Spawned(dets[idxs[k]], old(nextId) + k, now)]);
      }
      assert idxs[..|idxs|] == idxs;
    }

    /** The score matrix of `update`: `max(iou, 0.5 * proximity)` per detection and track. */
    method ScoreMatrix(dets: seq<Detection>) returns (a: array2<real>)
      requires Valid()
      ensures fresh(a) && a.Length0 == |dets| && a.Length1 == |tracks|
      ensures Snapshot(a) == Scores(dets, View(), config, numerics)
    {
      a := new real[|dets|, |tracks|];
      for i := 0 to |dets|
        invariant forall r, c :: 0 <= r < i && 0 <= c < |tracks| ==>
          a[r, c] == Score(dets[r], tracks[c].bbox, tracks[c].center, config, numerics)
      {
        for j := 0 to |tracks|
          invariant forall r, c :: 0 <= r < i && 0 <= c < |tracks| ==>
            a[r, c] == Score(dets[r], tracks[c].bbox, tracks[c].center, config, numerics)
          invariant forall c :: 0 <= c < j ==>
            a[i, c] == Score(dets[i], tracks[c].bbox, tracks[c].center, config, numerics)
        {
          a[i, j] := Score(dets[i], tracks[j].bbox, tracks[j].center, config, numerics);
        }
      }
      ghost var m := Scores(dets, View(), config, numerics);
      assert forall r :: 0 <= r < |dets| ==> Snapshot(a)[r] == m[r];
    }

    /** Matched lists of equal length naming detections of `dets` and distinct ids in the dictionary. */
    ghost predicate MatchedLists(dets: seq<Detection>, matchedDet: seq<nat>, matchedTrk: seq<int>)
      reads this
    {
      |matchedDet| == |matchedTrk| && Distinct(matchedTrk) &&
      (forall k :: 0 <= k < |matchedDet| ==> matchedDet[k] < |dets|) &&
      (forall k :: 0 <= k < |matchedTrk| ==> matchedTrk[k] in TrackIds())
    }

    /** `self.tracks[trk_id].update(...)` for every matched pair, in commit order. */
    method ApplyMatches(dets: seq<Detection>, matchedDet: seq<nat>, matchedTrk: seq<int>, now: real)
      requires Valid() && MatchedLists(dets, matchedDet, matchedTrk)
      modifies set t | t in tracks
      ensures View() == MatchView(old(View()), dets, matchedDet, matchedTrk, now, numerics)
    {
      ghost var v0 := View();
      for k := 0 to |matchedDet|
        invariant Valid() && MatchedLists(dets, matchedDet, matchedTrk)
        invariant View() == MatchView(v0, dets, matchedDet[..k], matchedTrk[..k], now, numerics)
      {
        ApplyMatch(dets, matchedDet, matchedTrk, k, v0, now);
      }
      assert matchedDet[..|matchedDet|] == matchedDet && matchedTrk[..|matchedTrk|] == matchedTrk;
    }

    /** The `k`-th update of `ApplyMatches`. */
    method ApplyMatch(dets: seq<Detection>, matchedDet: seq<nat>, matchedTrk: seq<int>, k: nat, ghost v0: seq<TrackRec>,
                      now: real)
      requires Valid() && MatchedLists(dets, matchedDet, matchedTrk) && k < |matchedTrk|
      requires View() == MatchView(v0, dets, matchedDet[..k], matchedTrk[..k], now, numerics)
      modifies set t | t in tracks
      ensures View() == MatchView(v0, dets, matchedDet[..k + 1], matchedTrk[..k + 1], now, numerics)
    {
      assert matchedTrk[k] !in matchedTrk[..k];
      MatchViewExtend(v0, dets, matchedDet, matchedTrk, k, now, numerics);
      UpdateById(matchedTrk[k], dets[matchedDet[k]], now);
    }

    /** `self.tracks[id].update(...)` with detection `d`, for an id in the dictionary. */
    method UpdateById(id: int, d: Detection, now: real)
      requires Valid() && id in TrackIds()
      modifies set t | t in tracks
      ensures View() == UpdatedById(old(View()), id, d, now, numerics)
    {
      var c := FindFrom(id, 0);
      assert c != -1 by {
        var j :| 0 <= j < |tracks| && TrackIds()[j] == id;
      }
      ghost var v0 := View();
      tracks[c].Update(d.bbox, d.confidence.GetOr(1.0), d.orientation, now, numerics);
      forall j | 0 <= j < |tracks| && j != c ensures View()[j] == v0[j] && v0[j].id != v0[c].id {
        assert tracks[j].id != tracks[c].id;
      }
      UpdatedByIdAt(v0, View(), c, d, now, numerics);
    }

    /** `for trk_id in ids: self.tracks[trk_id].mark_missing()`. */
    method MarkUnmatched(ids: seq<int>)
      requires Valid() && Distinct(ids)
      requires forall k :: 0 <= k < |ids| ==> ids[k] in TrackIds()
      modifies set t | t in tracks
      ensures View() == MissView(old(View()), ids)
    {
      ghost var v0 := View();
      for k := 0 to |ids|
        invariant Valid()
        invariant View() == MissView(v0, ids[..k])
      {
        assert ids[k] !in ids[..k];
        MissViewExtend(v0, ids, k);
        MarkById(ids[k]);
      }
      assert ids[..|ids|] == ids;
    }

    /** `self.tracks[id].mark_missing()`, for an id in the dictionary. */
    method MarkById(id: int)
      requires Valid() && id in TrackIds()
      modifies set t | t in tracks
      ensures View() == MissView(old(View()), [id])
    {
      var c := FindFrom(id, 0);
      assert c != -1 by {
        var j :| 0 <= j < |tracks| && TrackIds()[j] == id;
      }
      ghost var v0 := View();
      tracks[c].MarkMissing();
      forall j | 0 <= j < |tracks| ensures View()[j] == MissView(v0, [id])[j] {
        if j != c {
          assert tracks[j].id != tracks[c].id;
        }
      }
    }

    /** `SORTTracker._cleanup`. */
    method Cleanup()
      requires Valid()
      modifies this
      ensures Valid() && nextId == old(nextId) && frameCount == old(frameCount)
      ensures View() == SortRecords.Cleanup(old(View()), config.maxAge)
    {
      ghost var v0 := View();
      assert IdsIncreasing(v0) && IdsBelow(v0, nextId);
      CleanupKeepsIds(v0, config.maxAge, nextId);
      tracks := Survivors(tracks, config.maxAge);
    }

    /**
     * `SORTTracker.update` with the clock reading `now`: the new records and
     * `next_id` are one `Step` of the old ones, the frame counter grows by
     * one, and the returned tracks are the active query on the new records.
     */
    method Update(dets: seq<Detection>, now: real) returns (active: seq<TrackedObject>)
      requires Valid()
      modifies this, set t | t in tracks
      ensures Valid() && frameCount == old(frameCount) + 1
      ensures (View(), nextId) == Step(old(View()), old(nextId), dets, config, numerics, now)
      ensures RecsOf(active) == Active(View(), config.minHits)
    {
      frameCount := frameCount + 1;
      ghost var v0 := View();
      assert v0 == old(View());
      if |dets| == 0 {
        MissFrame(dets, now);
      } else if |tracks| == 0 {
        SpawnFirst(dets, now);
      } else {
        ghost var g := UpdateMatched(dets, now);
      }
      active := ActiveTracks();
    }

    /** The branch of `update` without detections: every track misses the frame. */
    method MissFrame(dets: seq<Detection>, now: real)
      requires Valid() && |dets| == 0
      modifies set t | t in tracks
      ensures Valid()
      ensures (View(), nextId) == Step(old(View()), old(nextId), dets, config, numerics, now)
    {
      MarkAllMissing();
      assert dets == [];
    }

    /** The branch of `update` without tracks: every detection becomes a track. */
    method SpawnFirst(dets: seq<Detection>, now: real)
      requires Valid() && |dets| > 0 && |tracks| == 0
      modifies this
      ensures Valid() && frameCount == old(frameCount)
      ensures (View(), nextId) == Step(old(View()), old(nextId), dets, config, numerics, now)
    {
      CreateTracks(dets, Range(|dets|), now);
      assert old(View()) == [] && dets != [];
      assert View() == SpawnAll(dets, Range(|dets|), old(nextId), now);
    }

    /** The branch of `update` with both detections and tracks; `g` is the matching it computes. */
    method UpdateMatched(dets: seq<Detection>, now: real) returns (ghost g: seq<(nat, nat)>)
      requires Valid() && |dets| > 0 && |tracks| > 0
      modifies this, set t | t in tracks
      ensures g == Greedy(Scores(dets, old(View()), config, numerics), |old(View())|, config.iouThreshold, {}, {})
      ensures Valid() && frameCount == old(frameCount)
      ensures View() == StepMatched(old(View()), old(nextId), dets, config, numerics, now, g).0
      ensures nextId == StepMatched(old(View()), old(nextId), dets, config, numerics, now, g).1
    {
      var unmatchedDet;
      ghost var v0, n0 := View(), nextId;
      unmatchedDet, g := MatchAndAge(dets, now);
      CreateTracks(dets, unmatchedDet, now);
      StepMatchedBy(v0, n0, dets, config, numerics, now, g, View());
      Cleanup();
    }

    /**
     * Scoring, greedy matching `g`, updating the matched tracks and marking
     * the others missing; returns the unmatched detection indices.
     */
    method MatchAndAge(dets: seq<Detection>, now: real) returns (unmatchedDet: seq<nat>, ghost g: seq<(nat, nat)>)
      requires Valid() && |dets| > 0 && |tracks| > 0
      modifies set t | t in tracks
      ensures g == Greedy(Scores(dets, old(View()), config, numerics), |old(View())|, config.iouThreshold, {}, {})
      ensures (forall k :: 0 <= k < |g| ==> g[k].0 < |dets|) && unmatchedDet == Unmatched(|dets|, g)
      ensures View() == Aged(old(View()), dets, g, now, numerics)
    {
      ghost var v0 := View();
      ghost var m := Scores(dets, v0, config, numerics);
      g := Greedy(m, |v0|, config.iouThreshold, {}, {});
      GreedyAtMostOnce(m, |v0|, config.iouThreshold, {}, {});
      var matchedDet, matchedTrk, unmatchedTrk;
      matchedDet, matchedTrk, unmatchedDet, unmatchedTrk := Associate(dets, m);
      AgeTracks(dets, g, matchedDet, matchedTrk, unmatchedTrk, now);
    }

    /**
     * The score matrix and `_match` on it: the matched lists follow the greedy
     * matching of the scores, and the leftovers are the rest in order.
     */
    method Associate(dets: seq<Detection>, ghost m: Matrix)
      returns (matchedDet: seq<nat>, matchedTrk: seq<int>, unmatchedDet: seq<nat>, unmatchedTrk: seq<int>)
      requires Valid() && m == Scores(dets, View(), config, numerics)
      ensures var g := Greedy(m, |tracks|, config.iouThreshold, {}, {});
        |matchedDet| == |g| && |matchedTrk| == |g| &&
        (forall k :: 0 <= k < |g| ==> matchedDet[k] == g[k].0 && matchedTrk[k] == TrackIds()[g[k].1])
      ensures unmatchedDet == Without(Range(|dets|), Elems(matchedDet))
      ensures unmatchedTrk == Without(TrackIds(), Elems(matchedTrk))
    {
      var trackIds := TrackIds();
      var a := ScoreMatrix(dets);
      matchedDet, matchedTrk, unmatchedDet, unmatchedTrk := Match(a, trackIds, |dets|, config.iouThreshold);
    }

    /** Updating the matched tracks by id and marking the unmatched ids missing ages every track. */
    method AgeTracks(dets: seq<Detection>, ghost g: seq<(nat, nat)>, matchedDet: seq<nat>, matchedTrk: seq<int>,
                     unmatchedTrk: seq<int>, now: real)
      requires Valid() && OneToOne(g)
      requires forall k :: 0 <= k < |g| ==> g[k].0 < |dets| && g[k].1 < |tracks|
      requires |matchedDet| == |g| && |matchedTrk| == |g|
      requires forall k :: 0 <= k < |g| ==> matchedDet[k] == g[k].0 && matchedTrk[k] == TrackIds()[g[k].1]
      requires unmatchedTrk == Without(TrackIds(), Elems(matchedTrk))
      modifies set t | t in tracks
      ensures Elems(matchedDet) == Rows(g)
      ensures View() == Aged(old(View()), dets, g, now, numerics)
    {
      ghost var v0 := View();
      assert TrackIds() == Ids(v0);
      AgedByIds(v0, dets, g, matchedDet, matchedTrk, now, numerics);
      MatchedIdsDistinct(v0, g, matchedTrk);
      assert Distinct(TrackIds());
      WithoutDistinct(TrackIds(), Elems(matchedTrk));
      forall k | 0 <= k < |unmatchedTrk| ensures unmatchedTrk[k] in TrackIds() {
        WithoutMember(TrackIds(), Elems(matchedTrk), unmatchedTrk[k]);
      }
      ApplyMatches(dets, matchedDet, matchedTrk, now);
      MarkUnmatched(unmatchedTrk);
    }
  }

  /** The tracks of `ts` that `_cleanup` keeps, in order. */
  method Survivors(ts: seq<TrackedObject>, maxAge: int) returns (kept: seq<TrackedObject>)
    ensures RecsOf(kept) == SortRecords.Cleanup(RecsOf(ts), maxAge)
  {
    ghost var v0 := RecsOf(ts);
    kept := [];
    for k := 0 to |ts|
      invariant RecsOf(kept) == SortRecords.Cleanup(v0[..k], maxAge)
    {
      CleanupAppend(v0[..k], v0[k], maxAge);
      assert v0[..k + 1] == v0[..k] + [v0[k]];
      if ts[k].isActive && ts[k].framesMissing <= maxAge {
        kept := kept + [ts[k]];
      }
    }
    assert v0[..|ts|] == v0;
  }

  /** The committed track ids are distinct, because columns are and ids are. */
  lemma MatchedIdsDistinct(recs: seq<TrackRec>, g: seq<(nat, nat)>, matchedTrk: seq<int>)
    requires IdsIncreasing(recs) && OneToOne(g)
    requires forall k :: 0 <= k < |g| ==> g[k].1 < |recs|
    requires |matchedTrk| == |g| && forall k :: 0 <= k < |g| ==> matchedTrk[k] == recs[g[k].1].id
    ensures Distinct(matchedTrk)
  {
    forall i, j | 0 <= i < j < |matchedTrk| ensures matchedTrk[i] != matchedTrk[j] {
      assert g[i].1 != g[j].1;
    }
  }
}
