/**
 * The ArUco marker detector of vision/detector.py: the decision whether a
 * frame's markers changed enough to be sent, the record of the last markers
 * sent, and the linear pixel-to-game scaling used without a homography.
 */
module Detector {
  import opened Wrappers
  import opened CameraRecords

  /** One detected marker as `detect_markers` reports it (corners and pixel centre left out). */
  datatype MarkerReading = MarkerReading(id: int, x: real, y: real, rotation: real)

  /** The default threshold of `_markers_changed`, in game units. */
  const ChangeThreshold: real := 5.0

  function Abs(r: real): (a: real)
    ensures a >= 0.0 && (a == r || a == -r)
  {
    if r < 0.0 then -r else r
  }

  /** The set of ids in a frame. */
  function Ids(ms: seq<MarkerReading>): (r: set<int>)
    ensures forall k :: k in r <==> exists i :: 0 <= i < |ms| && ms[i].id == k
  {
    set i | 0 <= i < |ms| :: ms[i].id
  }

  /** A marker moved more than the threshold along x or along y. */
  predicate Moved(m: MarkerReading, before: MarkerReading, threshold: real) {
    Abs(m.x - before.x) > threshold || Abs(m.y - before.y) > threshold
  }

  /** The position loop of `_markers_changed`: some marker already known moved. */
  function AnyMoved(ms: seq<MarkerReading>, last: map<int, MarkerReading>, threshold: real): bool
    decreases |ms|
  {
    if ms == [] then false
    else (ms[0].id in last && Moved(ms[0], last[ms[0].id], threshold)) || AnyMoved(ms[1..], last, threshold)
  }

  /** `_markers_changed`: the ids differ from the last ones sent, or some marker moved. */
  function MarkersChanged(ms: seq<MarkerReading>, last: map<int, MarkerReading>, threshold: real): bool {
    Ids(ms) != last.Keys || AnyMoved(ms, last, threshold)
  }

  /** The position loop finds a move exactly when some known marker moved beyond the threshold. */
  lemma {:induction false} AnyMovedSpec(ms: seq<MarkerReading>, last: map<int, MarkerReading>, threshold: real)
    ensures AnyMoved(ms, last, threshold) <==>
      exists i :: 0 <= i < |ms| && ms[i].id in last && Moved(ms[i], last[ms[i].id], threshold)
    decreases |ms|
  {
    if ms != [] {
      AnyMovedSpec(ms[1..], last, threshold);
      if AnyMoved(ms[1..], last, threshold) {
        var i :| 0 <= i < |ms[1..]| && ms[1..][i].id in last && Moved(ms[1..][i], last[ms[1..][i].id], threshold);
        assert ms[i + 1] == ms[1..][i];
      }
      forall i | 1 <= i < |ms| && ms[i].id in last && Moved(ms[i], last[ms[i].id], threshold)
        ensures AnyMoved(ms[1..], last, threshold)
      {
        assert ms[1..][i - 1] == ms[i];
      }
    }
  }

  /**
   * With the same ids, a frame counts as changed exactly when some marker moved
   * strictly more than the threshold along an axis; a move of exactly the
   * threshold does not count.
   */
  lemma MarkersChangedSpec(ms: seq<MarkerReading>, last: map<int, MarkerReading>, threshold: real)
    ensures Ids(ms) != last.Keys ==> MarkersChanged(ms, last, threshold)
    ensures Ids(ms) == last.Keys ==>
      (MarkersChanged(ms, last, threshold) <==>
        exists i :: 0 <= i < |ms| && (Abs(ms[i].x - last[ms[i].id].x) > threshold ||
                                      Abs(ms[i].y - last[ms[i].id].y) > threshold))
  {
    AnyMovedSpec(ms, last, threshold);
  }

  /** `{m["id"]: m for m in markers}`: a later reading of an id replaces an earlier one. */
  function ById(ms: seq<MarkerReading>): (r: map<int, MarkerReading>)
    ensures r.Keys == Ids(ms)
    decreases |ms|
  {
    if ms == [] then map[]
    else
      var r0 := ById(ms[..|ms| - 1]);
      assert Ids(ms) == Ids(ms[..|ms| - 1]) + {ms[|ms| - 1].id} by {
        forall k | k in Ids(ms) ensures k in Ids(ms[..|ms| - 1]) + {ms[|ms| - 1].id} {
          var i :| 0 <= i < |ms| && ms[i].id == k;
          if i < |ms| - 1 {
            assert ms[..|ms| - 1][i] == ms[i];
          }
        }
      }
      r0[ms[|ms| - 1].id := ms[|ms| - 1]]
  }

  /** Each id keeps its last reading in the frame. */
  lemma {:induction false} ByIdLast(ms: seq<MarkerReading>, i: nat)
    requires i < |ms|
    requires forall j :: i < j < |ms| ==> ms[j].id != ms[i].id
    ensures ById(ms)[ms[i].id] == ms[i]
    decreases |ms|
  {
    if i < |ms| - 1 {
      var init := ms[..|ms| - 1];
      assert init[i] == ms[i];
      forall j | i < j < |init| ensures init[j].id != init[i].id {
        assert init[j] == ms[j];
      }
      ByIdLast(init, i);
    }
  }

  /**
   * Once a frame with one reading per id has been recorded, the same frame
   * no longer counts as changed.
   */
  lemma RecordedFrameUnchanged(ms: seq<MarkerReading>, threshold: real)
    requires forall i, j :: 0 <= i < j < |ms| ==> ms[i].id != ms[j].id
    requires threshold >= 0.0
    ensures !MarkersChanged(ms, ById(ms), threshold)
  {
    AnyMovedSpec(ms, ById(ms), threshold);
    forall i | 0 <= i < |ms| ensures ById(ms)[ms[i].id] == ms[i] {
      ByIdLast(ms, i);
    }
  }

  /**
   * `_pixel_to_game_coords`: through the homography when there is one (an
   * oracle here), else scaled linearly from the frame to the play area; a
   * zero frame size is a division by zero, reported as none.
   */
  function PixelToGame(px: real, py: real, homography: Option<Matrix>, perspective: (Matrix, Pos) -> Pos,
                       frameWidth: int, frameHeight: int, areaWidth: real, areaHeight: real): (r: Option<Pos>)
    ensures homography.Some? ==> r == Some(perspective(homography.value, Pos(px, py)))
    ensures homography.None? ==> (r.None? <==> frameWidth == 0 || frameHeight == 0)
    ensures homography.None? && r.Some? ==>
      r.value.x * frameWidth as real == px * areaWidth && r.value.y * frameHeight as real == py * areaHeight
  {
    if homography.Some? then Some(perspective(homography.value, Pos(px, py)))
    else if frameWidth == 0 || frameHeight == 0 then None
    else Some(Pos(px / frameWidth as real * areaWidth, py / frameHeight as real * areaHeight))
  }

  /** The linear scaling sends the frame's corners to the play area's corners. */
  lemma PixelToGameCorners(perspective: (Matrix, Pos) -> Pos, frameWidth: int, frameHeight: int,
                           areaWidth: real, areaHeight: real)
    requires frameWidth != 0 && frameHeight != 0
    ensures PixelToGame(0.0, 0.0, None, perspective, frameWidth, frameHeight, areaWidth, areaHeight) == Some(Pos(0.0, 0.0))
    ensures PixelToGame(frameWidth as real, frameHeight as real, None, perspective, frameWidth, frameHeight,
                        areaWidth, areaHeight) == Some(Pos(areaWidth, areaHeight))
  {
    var w, h := frameWidth as real, frameHeight as real;
    assert w / w == 1.0 && h / h == 1.0;
  }

  /** The linear scaling keeps the order of pixel positions when frame and area sizes are positive. */
  lemma PixelToGameMonotone(px1: real, px2: real, py: real, perspective: (Matrix, Pos) -> Pos,
                            frameWidth: int, frameHeight: int, areaWidth: real, areaHeight: real)
    requires frameWidth > 0 && frameHeight > 0 && areaWidth > 0.0 && px1 <= px2
    ensures PixelToGame(px1, py, None, perspective, frameWidth, frameHeight, areaWidth, areaHeight).value.x <=
            PixelToGame(px2, py, None, perspective, frameWidth, frameHeight, areaWidth, areaHeight).value.x
  {
    var w := frameWidth as real;
    assert px1 / w <= px2 / w;
  }

  /** `ArucoDetector`: the state the detection loop keeps between frames. */
  class ArucoDetector {
    var frameWidth: int
    var frameHeight: int
    var homography: Option<Matrix>
    var lastMarkers: map<int, MarkerReading>
    var areaWidth: real
    var areaHeight: real

    /** A detector before its camera starts: 1280x720 frames, a 1920x1080 play area, nothing sent yet. */
    constructor()
      ensures frameWidth == 1280 && frameHeight == 720 && homography.None? && lastMarkers == map[]
      ensures areaWidth == 1920.0 && areaHeight == 1080.0
    {
      frameWidth, frameHeight, homography := 1280, 720, None;
      lastMarkers, areaWidth, areaHeight := map[], 1920.0, 1080.0;
    }

    /**
     * One pass of `run_detection_loop` after detection: when the markers
     * changed they are recorded by id (and sent); otherwise nothing changes.
     */
    method RecordIfChanged(markers: seq<MarkerReading>) returns (changed: bool)
      modifies this`lastMarkers
      ensures changed == MarkersChanged(markers, old(lastMarkers), ChangeThreshold)
      ensures lastMarkers == if changed then ById(markers) else old(lastMarkers)
    {
      changed := MarkersChanged(markers, lastMarkers, ChangeThreshold);
      if changed {
        lastMarkers := ById(markers);
      }
    }
  }
}
