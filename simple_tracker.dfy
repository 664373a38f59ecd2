/**
 * The mutable objects of server/simple_tracker.py: `TrackedMini`, whose
 * `update` rewrites its fields, and `SimpleTracker`, which owns the id-keyed
 * track dictionary. The dictionary is a sequence of objects in insertion
 * order, which is increasing id order because ids come from a counter that
 * only grows (or restarts at 1 on `reset`, when the dictionary is emptied).
 */
module SimpleTracking {
  import opened Wrappers
  import opened Seqs
  import opened SimpleRecords

  class TrackedMini {
    const id: int
    var bbox: Box
    var center: Centre
    var orientation: real
    var confidence: real
    var orientationHistory: seq<real>
    var lastSeen: real
    var framesMissing: nat

    /** The object's fields as a record. */
    ghost function Rec(): MiniRec
      reads this
    {
      MiniRec(id, bbox, center, orientation, confidence, orientationHistory, lastSeen, framesMissing)
    }

    /** The `TrackedMini(...)` a new detection creates, seen at time `now`. */
    constructor (id: int, d: MiniDet, now: real)
      ensures Rec() == Created(d, id, now)
    {
      this.id := id;
      bbox := d.bbox;
      center := d.center;
      orientation := d.orientation.GetOr(0.0);
      confidence := d.confidence.GetOr(1.0);
      orientationHistory := [];
      lastSeen := now;
      framesMissing := 0;
    }

    /** `TrackedMini.update` with the clock reading `now`. */
    method Update(bbox: Box, orientation: real, confidence: real, now: real, num: Numerics)
      modifies this
      ensures Rec() == Refreshed(old(Rec()), bbox, orientation, confidence, now, num)
    {
      Place(bbox, confidence, now);
      Turn(orientation, num);
    }

    /** The box, centre, confidence and counters of `update`. */
    method Place(bbox: Box, confidence: real, now: real)
      modifies this
      ensures Rec() == Placed(old(Rec()), bbox, confidence, now)
    {
      this.bbox := bbox;
      center := FloorCentre(bbox);
      this.confidence := confidence;
      lastSeen := now;
      framesMissing := 0;
    }

    /** The orientation history and its circular mean. */
    method Turn(orientation: real, num: Numerics)
      modifies this
      ensures Rec() == Turned(old(Rec()), orientation, num)
    {
      orientationHistory := LastN(orientationHistory + [orientation], OrientationHistoryLen);
      this.orientation := SortRecords.CircularMean(orientationHistory, num);
    }

    /** `track.frames_missing += 1`. */
    method Bump()
      modifies this
      ensures Rec() == SimpleRecords.Bump(old(Rec()))
    {
      framesMissing := framesMissing + 1;
    }
  }

  /** The records of a list of tracks. */
  ghost function RecsOf(ts: seq<TrackedMini>): (r: seq<MiniRec>)
    reads set t | t in ts
    ensures |r| == |ts| && forall k :: 0 <= k < |ts| ==> r[k] == ts[k].Rec()
  {
    seq(|ts|, k requires 0 <= k < |ts| reads set t | t in ts => ts[k].Rec())
  }

  class SimpleTracker {
    const config: SimpleConfig
    const numerics: Numerics
    /** `self.tracks`, in insertion order. */
    var tracks: seq<TrackedMini>
    var nextId: int

    /** Ids are strictly increasing along the dictionary and below `next_id`. */
    ghost predicate Valid()
      reads this
    {
      (forall i, j :: 0 <= i < j < |tracks| ==> tracks[i].id < tracks[j].id) &&
      (forall i :: 0 <= i < |tracks| ==> tracks[i].id < nextId)
    }

    /** The track records, in dictionary order. */
    ghost function View(): seq<MiniRec>
      reads this, set t | t in tracks
    {
      RecsOf(tracks)
    }

    /** `SimpleTracker.__init__`: no tracks and `next_id = 1`. */
    constructor (config: SimpleConfig, numerics: Numerics)
      ensures Valid() && this.config == config && this.numerics == numerics
      ensures tracks == [] && nextId == 1
    {
      this.config := config;
      this.numerics := numerics;
      tracks := [];
      nextId := 1;
    }

    /** `SimpleTracker.reset`: clears the tracks and restarts ids at 1. */
    method Reset()
      modifies this
      ensures Valid() && tracks == [] && nextId == 1
    {
      tracks := [];
      nextId := 1;
    }

    /** `SimpleTracker.update`: one frame; returns the remaining tracks, unfiltered. */
    method Update(dets: seq<MiniDet>, now: real) returns (result: seq<TrackedMini>)
      requires Valid()
      modifies this, set t | t in tracks
      ensures Valid() && result == tracks
      ensures View() == Frame(old(View()), old(nextId), dets, config, now, numerics).0
      ensures nextId == Frame(old(View()), old(nextId), dets, config, now, numerics).1
    {
      BumpAll();
      if |dets| > 0 {
        AssignAll(dets, now);
      }
      Cleanup();
      result := tracks;
    }

    /** The detection loop of `update`, with `used_tracks` starting empty. */
    method AssignAll(dets: seq<MiniDet>, now: real)
      requires Valid()
      modifies this, set t | t in tracks
      ensures Valid()
      ensures View() == Assign(old(View()), old(nextId), {}, dets, config.maxDistance, now, numerics).0
      ensures nextId == Assign(old(View()), old(nextId), {}, dets, config.maxDistance, now, numerics).1
    {
      ghost var b := View();
      ghost var n0 := nextId;
      var used: set<int> := {};
      for k := 0 to |dets|
        invariant Valid() && used <= IdSet(View())
        invariant forall t :: t in tracks ==> t in old(tracks) || fresh(t)
        invariant Assign(View(), nextId, used, dets[k..], config.maxDistance, now, numerics)
               == Assign(b, n0, {}, dets, config.maxDistance, now, numerics)
      {
        assert dets[k..] == [dets[k]] + dets[k + 1..];
        used := ClaimOne(dets[k], used, now);
      }
    }

    /** `for track in self.tracks.values(): track.frames_missing += 1`. */
    method BumpAll()
      requires Valid()
      modifies set t | t in tracks
      ensures View() == SimpleRecords.BumpAll(old(View()))
    {
      ghost var v0 := View();
      for k := 0 to |tracks|
        invariant forall j :: 0 <= j < |tracks| ==> tracks[j].Rec() == if j < k then SimpleRecords.Bump(v0[j]) else v0[j]
      {
        tracks[k].Bump();
      }
    }

    /**
     * The search for the nearest track not yet used whose centre is strictly
     * closer than `max_distance` to `c`; `None` stands for `best_track_id is None`.
     */
    method Nearest(used: set<int>, c: Centre) returns (best: Option<nat>)
      ensures best == SimpleRecords.Nearest(View(), used, c, config.maxDistance)
    {
      ghost var v := View();
      best := None;
      var bestDist := 0.0;
      for k := 0 to |tracks|
        invariant best.Some? ==> best.value < k && bestDist == Dist2(c, v[best.value].center)
        invariant Scan(v, used, c, config.maxDistance, k, best) == SimpleRecords.Nearest(v, used, c, config.maxDistance)
      {
        ghost var before := best;
        var t := tracks[k];
        if t.id !in used {
          var dist := Dist2(c, t.center);
          if (best.None? || dist < bestDist) && Within(dist, config.maxDistance) {
            best := Some(k);
            bestDist := dist;
          }
        }
        assert best == Pick(v, used, c, config.maxDistance, k, before);
      }
    }

    /** One iteration of the detection loop of `update`; returns the grown `used_tracks`. */
    method ClaimOne(d: MiniDet, used: set<int>, now: real) returns (used': set<int>)
      requires Valid() && used <= IdSet(View())
      modifies this, set t | t in tracks
      ensures Valid() && used' <= IdSet(View())
      ensures forall t :: t in tracks ==> t in old(tracks) || fresh(t)
      ensures View() == Claim(old(View()), old(nextId), used, d, config.maxDistance, now, numerics).0
      ensures nextId == Claim(old(View()), old(nextId), used, d, config.maxDistance, now, numerics).1
      ensures used' == Claim(old(View()), old(nextId), used, d, config.maxDistance, now, numerics).2
    {
      ghost var v0 := View();
      assert IdsOk(v0, nextId);
      ClaimTakesOne(v0, nextId, used, d, config.maxDistance, now, numerics);
      var best := Nearest(used, d.center);
      if best.Some? {
        used' := ClaimExisting(best.value, d, used, now);
      } else {
        used' := ClaimNew(d, used, now);
      }
    }

    /** The branch of the detection loop where the track at position `c` is the nearest. */
    method ClaimExisting(c: nat, d: MiniDet, used: set<int>, now: real) returns (used': set<int>)
      requires Valid() && c < |tracks| && SimpleRecords.Nearest(View(), used, d.center, config.maxDistance) == Some(c)
      modifies set t | t in tracks
      ensures View() == Claim(old(View()), nextId, used, d, config.maxDistance, now, numerics).0
      ensures nextId == Claim(old(View()), nextId, used, d, config.maxDistance, now, numerics).1
      ensures used' == Claim(old(View()), nextId, used, d, config.maxDistance, now, numerics).2
    {
      used' := used + {tracks[c].id};
      Refresh(c, d, now);
    }

    /** The branch of the detection loop where no track is near enough: a new one is created. */
    method ClaimNew(d: MiniDet, used: set<int>, now: real) returns (used': set<int>)
      requires Valid() && SimpleRecords.Nearest(View(), used, d.center, config.maxDistance) == None
      modifies this
      ensures Valid() && forall t :: t in tracks ==> t in old(tracks) || fresh(t)
      ensures View() == Claim(old(View()), old(nextId), used, d, config.maxDistance, now, numerics).0
      ensures nextId == Claim(old(View()), old(nextId), used, d, config.maxDistance, now, numerics).1
      ensures used' == Claim(old(View()), old(nextId), used, d, config.maxDistance, now, numerics).2
    {
      used' := used + {nextId};
      Spawn(d, now);
    }

    /** `self.tracks[best_track_id].update(...)` for the track at position `c`. */
    method Refresh(c: nat, d: MiniDet, now: real)
      requires Valid() && c < |tracks|
      modifies set t | t in tracks
      ensures View() == old(View())[c := RefreshedBy(old(View())[c], d, now, numerics)]
    {
      ghost var v0 := View();
      tracks[c].Update(d.bbox, d.orientation.GetOr(0.0), d.confidence.GetOr(1.0), now, numerics);
      forall j | 0 <= j < |tracks| ensures View()[j] == v0[c := RefreshedBy(v0[c], d, now, numerics)][j] {
        if j != c {
          assert tracks[j].id != tracks[c].id;
        }
      }
    }

    /** A new `TrackedMini` with id `next_id` stored under that id, and `next_id` bumped. */
    method Spawn(d: MiniDet, now: real)
      requires Valid()
      modifies this
      ensures Valid() && nextId == old(nextId) + 1
      ensures |tracks| == |old(tracks)| + 1 && tracks[..|old(tracks)|] == old(tracks) && fresh(tracks[|old(tracks)|])
      ensures View() == old(View()) + [Created(d, old(nextId), now)]
    {
      var t := new TrackedMini(nextId, d, now);
      tracks := tracks + [t];
      nextId := nextId + 1;
    }

    /** `SimpleTracker._cleanup`: deletes the tracks missing for more than `max_missing` frames. */
    method Cleanup()
      requires Valid()
      modifies this
      ensures Valid() && nextId == old(nextId)
      ensures View() == Purge(old(View()), config.maxMissing)
    {
      ghost var v0 := View();
      assert IdsOk(v0, nextId);
      PurgeKeepsIds(v0, config.maxMissing, nextId);
      tracks := Survivors(tracks, config.maxMissing);
    }
  }

  /** The tracks of `ts` missing for at most `maxMissing` frames, in order (what `_cleanup` keeps). */
  method Survivors(ts: seq<TrackedMini>, maxMissing: int) returns (kept: seq<TrackedMini>)
    ensures RecsOf(kept) == Purge(RecsOf(ts), maxMissing)
  {
    ghost var v0 := RecsOf(ts);
    kept := [];
    for k := 0 to |ts|
      invariant RecsOf(kept) == Purge(v0[..k], maxMissing)
    {
      assert v0[..k + 1][..k] == v0[..k];
      if ts[k].framesMissing <= maxMissing {
        kept := kept + [ts[k]];
      }
    }
    assert v0[..|ts|] == v0;
  }
}
