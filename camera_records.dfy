/**
 * Value-level view of server/camera_manager.py: the record a
 * `TrackedMiniature` holds and its smoothed position, the calibration record
 * and its homography step, and what `_update_tracking` does to the miniature
 * registry. The classes in camera.dfy are proved against these definitions.
 *
 * OpenCV is a parameter (`Cv`): whether it is importable, the homography
 * solve (which may raise, find nothing or return a matrix) and the
 * perspective transform.
 */
module CameraRecords {
  import opened Wrappers
  import opened Seqs

  datatype Pos = Pos(x: real, y: real)

  /** A 3x3 homography, as numpy returns it. */
  type Matrix = seq<seq<real>>

  /** The three outcomes of `cv2.findHomography` inside `calculate_homography`'s `try`. */
  datatype Solve = Raised | NoSolution | Solved(m: Matrix)

  datatype Cv = Cv(available: bool, findHomography: (seq<Pos>, seq<Pos>) -> Solve, perspective: (Matrix, Pos) -> Pos)

  datatype CameraState = Disconnected | Connecting | Connected | Streaming | Error | Calibrating

  /** `update_position`'s default `smoothing=5`, the only value `_update_tracking` uses. */
  const Smoothing := 5
  /** `CameraManager.miniature_timeout`, in seconds. */
  const MiniatureTimeout := 5.0

  /** The record a `TrackedMiniature` holds; times are seconds on one clock. */
  datatype MiniatureRec = MiniatureRec(
    markerId: int,
    playerId: Option<string>,
    playerName: Option<string>,
    characterName: Option<string>,
    x: real,
    y: real,
    rotation: real,
    pixelX: real,
    pixelY: real,
    positionHistory: seq<Pos>,
    lastSeen: real,
    firstSeen: real,
    isVisible: bool,
    confidence: real)

  /** `TrackedMiniature(marker_id=id)` created at time `now`. */
  function Fresh(id: int, now: real): (r: MiniatureRec)
    ensures r.markerId == id && r.isVisible && r.positionHistory == []
    ensures r.playerId.None? && r.playerName.None? && r.characterName.None?
  {
    MiniatureRec(id, None, None, None, 0.0, 0.0, 0.0, 0.0, 0.0, [], now, now, true, 1.0)
  }

  /** Python's `s[-m:]`. */
  function PyTail<T>(s: seq<T>, m: int): (r: seq<T>)
    ensures m > 0 ==> r == LastN(s, m)
  {
    if m > 0 then LastN(s, m)
    else if -m <= |s| then s[-m..]
    else []
  }

  function SumX(h: seq<Pos>): real {
    if h == [] then 0.0 else SumX(h[..|h| - 1]) + h[|h| - 1].x
  }

  function SumY(h: seq<Pos>): real {
    if h == [] then 0.0 else SumY(h[..|h| - 1]) + h[|h| - 1].y
  }

  /** The smoothed position: the mean of the history once it holds two samples, else the raw one. */
  function Smoothed(hist: seq<Pos>, raw: Pos): Pos {
    if |hist| >= 2 then Pos(SumX(hist) / |hist| as real, SumY(hist) / |hist| as real) else raw
  }

  /** The history of `update_position`: the new sample appended, then cut to its last `smoothing`. */
  function Kept(hist: seq<Pos>, p: Pos, smoothing: int): seq<Pos> {
    var h := hist + [p];
    if |h| > smoothing then PyTail(h, smoothing) else h
  }

  /** `update_position` without the clock: history, smoothed `x`, `y`. */
  function Recorded(r: MiniatureRec, x: real, y: real, smoothing: int): MiniatureRec {
    var h := Kept(r.positionHistory, Pos(x, y), smoothing);
    var p := Smoothed(h, Pos(x, y));
    r.(positionHistory := h, x := p.x, y := p.y)
  }

  /** The raw pose fields of `update_position`. */
  function Posed(r: MiniatureRec, rotation: real, pixelX: real, pixelY: real): MiniatureRec {
    r.(rotation := rotation, pixelX := pixelX, pixelY := pixelY)
  }

  /** A miniature seen at time `now`. */
  function Sighted(r: MiniatureRec, now: real): MiniatureRec {
    r.(lastSeen := now, isVisible := true)
  }

  /** `TrackedMiniature.update_position` at time `now`. */
  function Positioned(r: MiniatureRec, x: real, y: real, rotation: real, pixelX: real, pixelY: real, smoothing: int,
                      now: real): MiniatureRec {
    Sighted(Posed(Recorded(r, x, y, smoothing), rotation, pixelX, pixelY), now)
  }

  lemma {:induction false} SumXBounds(h: seq<Pos>, lo: real, hi: real)
    requires forall k :: 0 <= k < |h| ==> lo <= h[k].x <= hi
    ensures |h| as real * lo <= SumX(h) <= |h| as real * hi
  {
    if h != [] {
      SumXBounds(h[..|h| - 1], lo, hi);
    }
  }

  lemma {:induction false} SumYBounds(h: seq<Pos>, lo: real, hi: real)
    requires forall k :: 0 <= k < |h| ==> lo <= h[k].y <= hi
    ensures |h| as real * lo <= SumY(h) <= |h| as real * hi
  {
    if h != [] {
      SumYBounds(h[..|h| - 1], lo, hi);
    }
  }

  lemma MeanBetween(s: real, n: real, lo: real, hi: real)
    requires n > 0.0 && n * lo <= s <= n * hi
    ensures lo <= s / n <= hi
  {
  }

  /** The kept history ends with the new sample and holds at most `smoothing` samples. */
  lemma KeptShape(hist: seq<Pos>, p: Pos, smoothing: int)
    requires smoothing >= 1
    ensures 1 <= |Kept(hist, p, smoothing)| <= smoothing
    ensures Kept(hist, p, smoothing)[|Kept(hist, p, smoothing)| - 1] == p
  {
    var h := hist + [p];
    assert h[|h| - 1] == p;
  }

  /** The smoothed position lies within the box spanned by the samples and the raw one. */
  lemma SmoothedBetween(h: seq<Pos>, raw: Pos, lo: Pos, hi: Pos)
    requires lo.x <= raw.x <= hi.x && lo.y <= raw.y <= hi.y
    requires forall k :: 0 <= k < |h| ==> lo.x <= h[k].x <= hi.x && lo.y <= h[k].y <= hi.y
    ensures lo.x <= Smoothed(h, raw).x <= hi.x && lo.y <= Smoothed(h, raw).y <= hi.y
    ensures |h| < 2 ==> Smoothed(h, raw) == raw
  {
    if |h| >= 2 {
      var n := |h| as real;
      SumXBounds(h, lo.x, hi.x);
      SumYBounds(h, lo.y, hi.y);
      MeanBetween(SumX(h), n, lo.x, hi.x);
      MeanBetween(SumY(h), n, lo.y, hi.y);
    }
  }

  /**
   * After `update_position` the history ends with the new sample and holds at
   * most `smoothing` of them, and the smoothed position lies within the box
   * spanned by the samples kept: their mean once there are two, else the raw
   * sample itself. The pose and sighting are the new ones; identity and
   * assignment are untouched.
   */
  lemma PositionedSmooths(r: MiniatureRec, x: real, y: real, rotation: real, pixelX: real, pixelY: real,
                          smoothing: int, now: real, lo: Pos, hi: Pos)
    requires smoothing >= 1
    requires forall k :: 0 <= k < |Kept(r.positionHistory, Pos(x, y), smoothing)| ==>
      lo.x <= Kept(r.positionHistory, Pos(x, y), smoothing)[k].x <= hi.x &&
      lo.y <= Kept(r.positionHistory, Pos(x, y), smoothing)[k].y <= hi.y
    ensures var u := Positioned(r, x, y, rotation, pixelX, pixelY, smoothing, now);
      1 <= |u.positionHistory| <= smoothing && u.positionHistory[|u.positionHistory| - 1] == Pos(x, y) &&
      lo.x <= u.x <= hi.x && lo.y <= u.y <= hi.y &&
      (|u.positionHistory| < 2 ==> u.x == x && u.y == y)
    ensures var u := Positioned(r, x, y, rotation, pixelX, pixelY, smoothing, now);
      u.isVisible && u.lastSeen == now && u.rotation == rotation && u.pixelX == pixelX && u.pixelY == pixelY &&
      u.markerId == r.markerId && u.playerId == r.playerId && u.firstSeen == r.firstSeen
  {
    var h := Kept(r.positionHistory, Pos(x, y), smoothing);
    KeptShape(r.positionHistory, Pos(x, y), smoothing);
    SmoothedBetween(h, Pos(x, y), lo, hi);
  }

  /** One marker of a detection frame, in game and pixel coordinates. */
  datatype Marker = Marker(id: int, x: real, y: real, rotation: real, pixelX: real, pixelY: real)

  /** The registry's key order matches its map and has no repeats. */
  ghost predicate KeysMatch(view: map<int, MiniatureRec>, keys: seq<int>) {
    Distinct(keys) && (forall k :: k in keys <==> k in view) && (forall k :: k in view ==> view[k].markerId == k)
  }

  lemma KeysIn(view: map<int, MiniatureRec>, keys: seq<int>)
    requires KeysMatch(view, keys)
    ensures forall j :: 0 <= j < |keys| ==> keys[j] in view
  {
    forall j | 0 <= j < |keys| ensures keys[j] in view {
      var k := keys[j];
      assert k in keys;
    }
  }

  /** One iteration of the marker loop of `_update_tracking`: create the entry if new, then update it. */
  function Observe(view: map<int, MiniatureRec>, keys: seq<int>, m: Marker, now: real): (map<int, MiniatureRec>, seq<int>) {
    var v := if m.id in view then view else view[m.id := Fresh(m.id, now)];
    var ks := if m.id in view then keys else keys + [m.id];
    (v[m.id := Positioned(v[m.id], m.x, m.y, m.rotation, m.pixelX, m.pixelY, Smoothing, now)], ks)
  }

  /** The marker loop of `_update_tracking`, over the markers in order. */
  function ObserveAll(view: map<int, MiniatureRec>, keys: seq<int>, markers: seq<Marker>, now: real)
    : (map<int, MiniatureRec>, seq<int>)
    decreases |markers|
  {
    if markers == [] then (view, keys)
    else
      var s := Observe(view, keys, markers[0], now);
      ObserveAll(s.0, s.1, markers[1..], now)
  }

  /** The marker loop from position `i` is one observation followed by the loop from `i + 1`. */
  lemma ObserveAllStep(view: map<int, MiniatureRec>, keys: seq<int>, markers: seq<Marker>, i: nat, now: real)
    requires i < |markers|
    ensures ObserveAll(view, keys, markers[i..], now) ==
      ObserveAll(Observe(view, keys, markers[i], now).0, Observe(view, keys, markers[i], now).1, markers[i + 1..], now)
  {
    assert markers[i..][0] == markers[i];
    assert markers[i..][1..] == markers[i + 1..];
  }

  function MarkerIds(markers: seq<Marker>): set<int> {
    set k | 0 <= k < |markers| :: markers[k].id
  }

  lemma MarkerIdsCons(markers: seq<Marker>)
    requires markers != []
    ensures MarkerIds(markers) == {markers[0].id} + MarkerIds(markers[1..])
  {
    forall k | k in MarkerIds(markers) ensures k in {markers[0].id} + MarkerIds(markers[1..]) {
      var i :| 0 <= i < |markers| && markers[i].id == k;
      if i > 0 {
        assert markers[1..][i - 1].id == k;
      }
    }
    forall k | k in MarkerIds(markers[1..]) ensures k in MarkerIds(markers) {
      var j :| 0 <= j < |markers[1..]| && markers[1..][j].id == k;
      assert markers[j + 1].id == k;
    }
    assert markers[0].id in MarkerIds(markers);
  }

  /** The second loop of `_update_tracking`: unseen entries older than the timeout become invisible. */
  function Fade(view: map<int, MiniatureRec>, seen: set<int>, now: real, timeout: real): (r: map<int, MiniatureRec>)
    ensures r.Keys == view.Keys
  {
    map k | k in view :: FadeEntry(view[k], k, seen, now, timeout)
  }

  /** One entry of the second loop of `_update_tracking`. */
  function FadeEntry(r: MiniatureRec, k: int, seen: set<int>, now: real, timeout: real): MiniatureRec {
    if k !in seen && now - r.lastSeen > timeout then r.(isVisible := false) else r
  }

  /** A registry whose every key, visited in order, got `FadeEntry` is the faded registry. */
  lemma FadeByKeys(view: map<int, MiniatureRec>, faded: map<int, MiniatureRec>, keys: seq<int>, seen: set<int>,
                   now: real, timeout: real)
    requires KeysMatch(view, keys) && faded.Keys == view.Keys
    requires forall j :: 0 <= j < |keys| ==> keys[j] in view && faded[keys[j]] == FadeEntry(view[keys[j]], keys[j], seen, now, timeout)
    ensures faded == Fade(view, seen, now, timeout)
  {
    forall k | k in view ensures faded[k] == Fade(view, seen, now, timeout)[k] {
      assert k in keys;
      var j :| 0 <= j < |keys| && keys[j] == k;
    }
  }

  /** `CameraManager._update_tracking` at time `now`. */
  function Tracking(view: map<int, MiniatureRec>, keys: seq<int>, markers: seq<Marker>, now: real, timeout: real)
    : (map<int, MiniatureRec>, seq<int>)
  {
    var s := ObserveAll(view, keys, markers, now);
    (Fade(s.0, MarkerIds(markers), now, timeout), s.1)
  }

  /** One observation keeps the registry consistent, only adds keys, and leaves other entries alone. */
  lemma ObserveKeeps(view: map<int, MiniatureRec>, keys: seq<int>, m: Marker, now: real)
    requires KeysMatch(view, keys)
    ensures KeysMatch(Observe(view, keys, m, now).0, Observe(view, keys, m, now).1)
    ensures |Observe(view, keys, m, now).1| >= |keys| && Observe(view, keys, m, now).1[..|keys|] == keys
    ensures m.id in Observe(view, keys, m, now).0
    ensures Observe(view, keys, m, now).0[m.id].lastSeen == now && Observe(view, keys, m, now).0[m.id].isVisible
    ensures forall k :: k in view && k != m.id ==> k in Observe(view, keys, m, now).0 && Observe(view, keys, m, now).0[k] == view[k]
  {
    if m.id !in view {
      var ks := keys + [m.id];
      assert ks[..|keys|] == keys;
      assert forall k :: k in ks <==> k in keys || k == m.id;
      assert Distinct(ks) by {
        forall i, j | 0 <= i < j < |ks| ensures ks[i] != ks[j] {
          if j == |keys| {
            assert ks[i] == keys[i];
          }
        }
      }
    } else {
      assert keys[..|keys|] == keys;
    }
  }

  /** The marker loop keeps the registry consistent and only appends keys. */
  lemma {:induction false} ObserveAllConsistent(view: map<int, MiniatureRec>, keys: seq<int>, markers: seq<Marker>,
                                                now: real)
    requires KeysMatch(view, keys)
    ensures KeysMatch(ObserveAll(view, keys, markers, now).0, ObserveAll(view, keys, markers, now).1)
    ensures |ObserveAll(view, keys, markers, now).1| >= |keys| && ObserveAll(view, keys, markers, now).1[..|keys|] == keys
    decreases |markers|
  {
    if markers != [] {
      var s := Observe(view, keys, markers[0], now);
      ObserveKeeps(view, keys, markers[0], now);
      ObserveAllConsistent(s.0, s.1, markers[1..], now);
      var r := ObserveAll(s.0, s.1, markers[1..], now);
      assert r.1[..|keys|] == r.1[..|s.1|][..|keys|];
    }
  }

  /** An entry no marker of the frame names leaves the marker loop as it was. */
  lemma {:induction false} ObserveAllLeaves(view: map<int, MiniatureRec>, keys: seq<int>, markers: seq<Marker>,
                                            now: real, k: int)
    requires KeysMatch(view, keys) && k in view && k !in MarkerIds(markers)
    ensures k in ObserveAll(view, keys, markers, now).0 && ObserveAll(view, keys, markers, now).0[k] == view[k]
    decreases |markers|
  {
    if markers != [] {
      var s := Observe(view, keys, markers[0], now);
      MarkerIdsCons(markers);
      ObserveKeeps(view, keys, markers[0], now);
      ObserveAllLeaves(s.0, s.1, markers[1..], now, k);
    }
  }

  /** Every marker of the frame leaves the marker loop present, visible and seen now. */
  lemma {:induction false} ObserveAllSees(view: map<int, MiniatureRec>, keys: seq<int>, markers: seq<Marker>,
                                          now: real, i: int)
    requires KeysMatch(view, keys) && 0 <= i < |markers|
    ensures markers[i].id in ObserveAll(view, keys, markers, now).0
    ensures ObserveAll(view, keys, markers, now).0[markers[i].id].lastSeen == now
    ensures ObserveAll(view, keys, markers, now).0[markers[i].id].isVisible
    decreases |markers|
  {
    var s := Observe(view, keys, markers[0], now);
    ObserveKeeps(view, keys, markers[0], now);
    if i > 0 {
      assert markers[i] == markers[1..][i - 1];
      ObserveAllSees(s.0, s.1, markers[1..], now, i - 1);
    } else {
      if markers[0].id in MarkerIds(markers[1..]) {
        var j :| 0 <= j < |markers[1..]| && markers[1..][j].id == markers[0].id;
        ObserveAllSees(s.0, s.1, markers[1..], now, j);
      } else {
        ObserveAllLeaves(s.0, s.1, markers[1..], now, markers[0].id);
      }
    }
  }

  /**
   * `_update_tracking` deletes nothing and only appends new ids; every marker
   * seen is present and visible; an entry not seen this frame keeps all its
   * fields, except that it turns invisible exactly when it was last seen more
   * than `timeout` seconds ago.
   */
  lemma TrackingSpec(view: map<int, MiniatureRec>, keys: seq<int>, markers: seq<Marker>, now: real, timeout: real)
    requires KeysMatch(view, keys)
    ensures var t := Tracking(view, keys, markers, now, timeout);
      KeysMatch(t.0, t.1) && |t.1| >= |keys| && t.1[..|keys|] == keys &&
      (forall i :: 0 <= i < |markers| ==> markers[i].id in t.0 && t.0[markers[i].id].isVisible) &&
      (forall k :: k in view && k !in MarkerIds(markers) ==> (k in t.0 &&
        t.0[k] == view[k].(isVisible := view[k].isVisible && !(now - view[k].lastSeen > timeout))))
  {
    ObserveAllConsistent(view, keys, markers, now);
    var t := Tracking(view, keys, markers, now, timeout);
    forall i | 0 <= i < |markers| ensures markers[i].id in t.0 && t.0[markers[i].id].isVisible {
      ObserveAllSees(view, keys, markers, now, i);
      assert markers[i].id in MarkerIds(markers);
    }
    forall k | k in view && k !in MarkerIds(markers)
      ensures k in t.0 && t.0[k] == view[k].(isVisible := view[k].isVisible && !(now - view[k].lastSeen > timeout))
    {
      ObserveAllLeaves(view, keys, markers, now, k);
    }
  }

  /** The calibration record (`CalibrationData`). */
  datatype Cal = Cal(imagePoints: seq<Pos>, gamePoints: seq<Pos>, homography: Option<Matrix>,
                     gameWidth: real, gameHeight: real, isCalibrated: bool)

  /** `CalibrationData()`: no points, no matrix, a 1920x1080 game area, not calibrated. */
  const DefaultCal := Cal([], [], None, 1920.0, 1080.0, false)

  /** `CalibrationData.calculate_homography`: the new record and the returned flag. */
  function Calculated(c: Cal, cv: Cv): (Cal, bool) {
    if !cv.available || |c.imagePoints| < 4 || |c.gamePoints| < 4 then (c, false)
    else match cv.findHomography(c.imagePoints, c.gamePoints)
      case Raised => (c, false)
      case NoSolution => (c.(homography := None, isCalibrated := false), false)
      case Solved(m) => (c.(homography := Some(m), isCalibrated := true), true)
  }

  /** `is_calibrated` says whether a matrix is present. */
  predicate Honest(c: Cal) {
    c.isCalibrated == c.homography.Some?
  }

  /**
   * The homography step never touches the points or the game size; it fails
   * with the record unchanged when OpenCV is missing or either list has fewer
   * than 4 points; it succeeds exactly when a matrix is installed; and it keeps
   * `is_calibrated` equal to "a matrix is present".
   */
  lemma CalculatedSpec(c: Cal, cv: Cv)
    ensures var r := Calculated(c, cv);
      r.0.imagePoints == c.imagePoints && r.0.gamePoints == c.gamePoints &&
      r.0.gameWidth == c.gameWidth && r.0.gameHeight == c.gameHeight &&
      (!cv.available || |c.imagePoints| < 4 || |c.gamePoints| < 4 ==> r == (c, false)) &&
      (r.1 ==> r.0.isCalibrated && r.0.homography.Some?) &&
      (!r.1 ==> r.0 == c || r.0 == c.(homography := None, isCalibrated := false)) &&
      (Honest(c) ==> Honest(r.0))
  {
  }

  /** The image points of `set_simple_calibration`: the four frame corners. */
  function FrameCorners(frameWidth: int, frameHeight: int): seq<Pos> {
    [Pos(0.0, 0.0), Pos(frameWidth as real, 0.0), Pos(frameWidth as real, frameHeight as real), Pos(0.0, frameHeight as real)]
  }

  /** The game points of `set_simple_calibration`: the four corners of the game area. */
  function GameCorners(gameWidth: real, gameHeight: real): seq<Pos> {
    [Pos(0.0, 0.0), Pos(gameWidth, 0.0), Pos(gameWidth, gameHeight), Pos(0.0, gameHeight)]
  }

  /** `assign_player_to_miniature`: the entry, created if absent, carries the player. */
  function Assigned(view: map<int, MiniatureRec>, id: int, playerId: string, playerName: string,
                    characterName: Option<string>, now: real): map<int, MiniatureRec> {
    var r := if id in view then view[id] else Fresh(id, now);
    view[id := r.(playerId := Some(playerId), playerName := Some(playerName), characterName := characterName)]
  }

  /** `assign_player_to_miniature` as its two steps: make sure the entry exists, then set the player. */
  lemma AssignedInTwoSteps(view: map<int, MiniatureRec>, entered: map<int, MiniatureRec>, id: int, playerId: string,
                           playerName: string, characterName: Option<string>, now: real)
    requires entered == if id in view then view else view[id := Fresh(id, now)]
    ensures entered[id := entered[id].(playerId := Some(playerId), playerName := Some(playerName),
                                       characterName := characterName)]
            == Assigned(view, id, playerId, playerName, characterName, now)
  {
  }

  /** The key order after `assign_player_to_miniature`. */
  function AssignedKeys(view: map<int, MiniatureRec>, keys: seq<int>, id: int): seq<int> {
    if id in view then keys else keys + [id]
  }

  /** `unassign_miniature`: the entry, if present, loses its player. */
  function Unassigned(view: map<int, MiniatureRec>, id: int): map<int, MiniatureRec> {
    if id in view then view[id := view[id].(playerId := None, playerName := None, characterName := None)] else view
  }

  /** Whether the entry for `k` exists and carries the player. */
  predicate Carries(view: map<int, MiniatureRec>, k: int, playerId: string) {
    k in view && view[k].playerId == Some(playerId)
  }

  /** `get_miniature_for_player`: the first id in insertion order whose entry carries the player. */
  function FirstAssigned(view: map<int, MiniatureRec>, keys: seq<int>, playerId: string): Option<int>
    decreases |keys|
  {
    if keys == [] then None
    else if Carries(view, keys[0], playerId) then Some(keys[0])
    else FirstAssigned(view, keys[1..], playerId)
  }

  /**
   * The miniature found for a player is the earliest in insertion order that
   * carries the player, and none is found exactly when no entry carries it.
   */
  lemma {:induction false} FirstAssignedSpec(view: map<int, MiniatureRec>, keys: seq<int>, playerId: string)
    ensures FirstAssigned(view, keys, playerId).None? <==>
      forall i :: 0 <= i < |keys| ==> !Carries(view, keys[i], playerId)
    ensures FirstAssigned(view, keys, playerId).Some? ==> exists i :: (0 <= i < |keys| &&
      keys[i] == FirstAssigned(view, keys, playerId).value && Carries(view, keys[i], playerId) &&
      forall j :: 0 <= j < i ==> !Carries(view, keys[j], playerId))
    decreases |keys|
  {
    if keys != [] {
      FirstAssignedSpec(view, keys[1..], playerId);
      if !Carries(view, keys[0], playerId) {
        if FirstAssigned(view, keys[1..], playerId).Some? {
          var i :| 0 <= i < |keys[1..]| && keys[1..][i] == FirstAssigned(view, keys[1..], playerId).value &&
            Carries(view, keys[1..][i], playerId) &&
            forall j :: 0 <= j < i ==> !Carries(view, keys[1..][j], playerId);
          assert keys[i + 1] == keys[1..][i];
          assert forall j :: 0 <= j < i + 1 ==> !Carries(view, keys[j], playerId) by {
            forall j | 0 <= j < i + 1 ensures !Carries(view, keys[j], playerId) {
              if j > 0 {
                assert keys[j] == keys[1..][j - 1];
              }
            }
          }
        } else {
          forall i | 0 <= i < |keys| ensures !Carries(view, keys[i], playerId) {
            if i > 0 {
              assert keys[i] == keys[1..][i - 1];
            }
          }
        }
      }
    }
  }

  /**
   * Assigning a player keeps the registry consistent and touches only the
   * named entry, which exists afterwards and carries the player.
   */
  lemma AssignedKeeps(view: map<int, MiniatureRec>, keys: seq<int>, id: int, playerId: string, playerName: string,
                      characterName: Option<string>, now: real)
    requires KeysMatch(view, keys)
    ensures var v := Assigned(view, id, playerId, playerName, characterName, now);
      KeysMatch(v, AssignedKeys(view, keys, id)) && v.Keys == view.Keys + {id} &&
      (forall k :: k in view && k != id ==> v[k] == view[k]) &&
      v[id].playerId == Some(playerId) && v[id].playerName == Some(playerName) && v[id].characterName == characterName
  {
    var ks := AssignedKeys(view, keys, id);
    if id !in view {
      assert forall k :: k in ks <==> k in keys || k == id;
      assert Distinct(ks) by {
        forall i, j | 0 <= i < j < |ks| ensures ks[i] != ks[j] {
          if j == |keys| {
            assert ks[i] == keys[i];
          }
        }
      }
    }
  }

  /** After assigning a player, a miniature is found for that player. */
  lemma AssignedFinds(view: map<int, MiniatureRec>, keys: seq<int>, id: int, playerId: string, playerName: string,
                      characterName: Option<string>, now: real)
    requires KeysMatch(view, keys)
    ensures FirstAssigned(Assigned(view, id, playerId, playerName, characterName, now),
                          AssignedKeys(view, keys, id), playerId).Some?
  {
    var v := Assigned(view, id, playerId, playerName, characterName, now);
    var ks := AssignedKeys(view, keys, id);
    AssignedKeeps(view, keys, id, playerId, playerName, characterName, now);
    assert id in ks;
    var i :| 0 <= i < |ks| && ks[i] == id;
    assert Carries(v, ks[i], playerId);
    FirstAssignedSpec(v, ks, playerId);
  }

  /**
   * Unassigning an entry just assigned clears its player, and gives back an
   * entry that existed without a player.
   */
  lemma UnassignUndoes(view: map<int, MiniatureRec>, id: int, playerId: string, playerName: string,
                       characterName: Option<string>, now: real)
    ensures var u := Unassigned(Assigned(view, id, playerId, playerName, characterName, now), id);
      u[id].playerId.None? && u[id].playerName.None? && u[id].characterName.None? &&
      (id in view && view[id].playerId.None? && view[id].playerName.None? && view[id].characterName.None? ==> u == view)
  {
    var u := Unassigned(Assigned(view, id, playerId, playerName, characterName, now), id);
    if id in view && view[id].playerId.None? && view[id].playerName.None? && view[id].characterName.None? {
      assert u[id] == view[id];
      assert u == view;
    }
  }
}
