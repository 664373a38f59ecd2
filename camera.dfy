/**
 * The calibration data and miniature registry of server/camera_manager.py as
 * classes over their fields: `TrackedMiniature`, `CalibrationData` and the
 * tracking and calibration part of `CameraManager`. Each method is proved
 * against the value-level definitions of CameraRecords.
 */
module Camera {
  import opened Wrappers
  import opened Seqs
  import opened CameraRecords

  class TrackedMiniature {
    const markerId: int
    var playerId: Option<string>
    var playerName: Option<string>
    var characterName: Option<string>
    var x: real
    var y: real
    var rotation: real
    var pixelX: real
    var pixelY: real
    var positionHistory: seq<Pos>
    var lastSeen: real
    var firstSeen: real
    var isVisible: bool
    var confidence: real

    ghost function Rec(): MiniatureRec
      reads this
    {
      MiniatureRec(markerId, playerId, playerName, characterName, x, y, rotation, pixelX, pixelY,
                   positionHistory, lastSeen, firstSeen, isVisible, confidence)
    }

    /** `TrackedMiniature(marker_id=id)` at time `now`. */
    constructor(id: int, now: real)
      ensures Rec() == Fresh(id, now)
    {
      markerId := id;
      playerId, playerName, characterName := None, None, None;
      x, y, rotation, pixelX, pixelY := 0.0, 0.0, 0.0, 0.0, 0.0;
      positionHistory := [];
      lastSeen, firstSeen := now, now;
      isVisible, confidence := true, 1.0;
    }

    /** `update_position` at time `now`. */
    method UpdatePosition(x': real, y': real, rotation': real, pixelX': real, pixelY': real, smoothing: int, now: real)
      modifies this
      ensures Rec() == Positioned(old(Rec()), x', y', rotation', pixelX', pixelY', smoothing, now)
    {
      Smooth(x', y', smoothing);
      Pose(rotation', pixelX', pixelY');
      See(now);
    }

    /** Appends the sample, keeps the last `smoothing` of them and sets the smoothed position. */
    method Smooth(x': real, y': real, smoothing: int)
      modifies this
      ensures Rec() == Recorded(old(Rec()), x', y', smoothing)
    {
      positionHistory := positionHistory + [Pos(x', y')];
      if |positionHistory| > smoothing {
        positionHistory := PyTail(positionHistory, smoothing);
      }
      var p := Smoothed(positionHistory, Pos(x', y'));
      x, y := p.x, p.y;
    }

    method Pose(rotation': real, pixelX': real, pixelY': real)
      modifies this
      ensures Rec() == Posed(old(Rec()), rotation', pixelX', pixelY')
    {
      rotation, pixelX, pixelY := rotation', pixelX', pixelY';
    }

    method See(now: real)
      modifies this
      ensures Rec() == Sighted(old(Rec()), now)
    {
      lastSeen, isVisible := now, true;
    }

    method Hide()
      modifies this
      ensures Rec() == old(Rec()).(isVisible := false)
    {
      isVisible := false;
    }

    method SetPlayer(playerId': Option<string>, playerName': Option<string>, characterName': Option<string>)
      modifies this
      ensures Rec() == old(Rec()).(playerId := playerId', playerName := playerName', characterName := characterName')
    {
      playerId, playerName, characterName := playerId', playerName', characterName';
    }
  }

  class CalibrationData {
    var imagePoints: seq<Pos>
    var gamePoints: seq<Pos>
    var homography: Option<Matrix>
    var gameWidth: real
    var gameHeight: real
    var isCalibrated: bool

    ghost function Rec(): Cal
      reads this
    {
      Cal(imagePoints, gamePoints, homography, gameWidth, gameHeight, isCalibrated)
    }

    /** `CalibrationData()`. */
    constructor()
      ensures Rec() == DefaultCal
    {
      imagePoints, gamePoints, homography := [], [], None;
      gameWidth, gameHeight, isCalibrated := 1920.0, 1080.0, false;
    }

    /** `calculate_homography`. */
    method CalculateHomography(cv: Cv) returns (ok: bool)
      modifies this
      ensures Rec() == Calculated(old(Rec()), cv).0
      ensures ok == Calculated(old(Rec()), cv).1
    {
      if !cv.available || |imagePoints| < 4 || |gamePoints| < 4 {
        return false;
      }
      var solve := cv.findHomography(imagePoints, gamePoints);
      match solve {
        case Raised =>
          ok := false;
        case NoSolution =>
          homography, isCalibrated := None, false;
          ok := false;
        case Solved(m) =>
          homography, isCalibrated := Some(m), true;
          ok := true;
      }
    }

    /** `transform_point`: the input itself unless OpenCV is present and a matrix is installed. */
    function TransformPoint(p: Pos, cv: Cv): (r: Pos)
      reads this
      ensures !cv.available || homography.None? ==> r == p
      ensures cv.available && homography.Some? ==> r == cv.perspective(homography.value, p)
    {
      if !cv.available then p
      else match homography
        case Some(m) => cv.perspective(m, p)
        case None => p
    }

    method AddPoint(image: Pos, game: Pos)
      modifies this
      ensures Rec() == old(Rec()).(imagePoints := old(imagePoints) + [image], gamePoints := old(gamePoints) + [game])
    {
      imagePoints := imagePoints + [image];
      gamePoints := gamePoints + [game];
    }

    method SetCorners(frameWidth: int, frameHeight: int, gameWidth': real, gameHeight': real)
      modifies this
      ensures Rec() == old(Rec()).(gameWidth := gameWidth', gameHeight := gameHeight',
        imagePoints := FrameCorners(frameWidth, frameHeight), gamePoints := GameCorners(gameWidth', gameHeight'))
    {
      gameWidth, gameHeight := gameWidth', gameHeight';
      imagePoints := FrameCorners(frameWidth, frameHeight);
      gamePoints := GameCorners(gameWidth', gameHeight');
    }
  }

  /** The calibration invariant: equal point counts, and `is_calibrated` exactly when a matrix is present. */
  ghost predicate CalOk(c: Cal) {
    |c.imagePoints| == |c.gamePoints| && Honest(c)
  }

  class CameraManager {
    var state: CameraState
    var errorMessage: Option<string>
    var frameWidth: int
    var frameHeight: int
    var calibration: CalibrationData
    var minis: map<int, TrackedMiniature>
    var keys: seq<int>
    var miniatureTimeout: real
    var running: bool

    /** The registry's records by marker id. */
    ghost function View(): map<int, MiniatureRec>
      reads this, minis.Values
    {
      map k | k in minis :: minis[k].Rec()
    }

    ghost predicate Valid()
      reads this, calibration, minis.Values
    {
      KeysMatch(View(), keys) && (forall k :: k in minis ==> minis[k].markerId == k) && CalOk(calibration.Rec())
    }

    constructor()
      ensures Valid() && View() == map[] && keys == []
      ensures state == Disconnected && errorMessage.None? && !running
      ensures frameWidth == 1280 && frameHeight == 720 && miniatureTimeout == MiniatureTimeout
      ensures calibration.Rec() == DefaultCal
    {
      state, errorMessage := Disconnected, None;
      frameWidth, frameHeight := 1280, 720;
      calibration := new CalibrationData();
      minis, keys := map[], [];
      miniatureTimeout, running := MiniatureTimeout, false;
    }

    /** `_update_tracking` for the markers of one frame, at time `now`. */
    method UpdateTracking(markers: seq<Marker>, now: real)
      requires Valid()
      modifies this, minis.Values
      ensures Valid()
      ensures View() == Tracking(old(View()), old(keys), markers, now, miniatureTimeout).0
      ensures keys == Tracking(old(View()), old(keys), markers, now, miniatureTimeout).1
      ensures calibration == old(calibration) && state == old(state) && miniatureTimeout == old(miniatureTimeout)
    {
      ObserveMarkers(markers, now);
      FadeAll(MarkerIds(markers), now);
    }

    /** The marker loop of `_update_tracking`. */
    method ObserveMarkers(markers: seq<Marker>, now: real)
      requires Valid()
      modifies this, minis.Values
      ensures Valid()
      ensures View() == ObserveAll(old(View()), old(keys), markers, now).0
      ensures keys == ObserveAll(old(View()), old(keys), markers, now).1
      ensures calibration == old(calibration) && state == old(state) && miniatureTimeout == old(miniatureTimeout)
      ensures forall t :: t in minis.Values ==> t in old(minis.Values) || fresh(t)
    {
      ghost var v0, k0 := View(), keys;
      var i := 0;
      while i < |markers|
        invariant 0 <= i <= |markers|
        invariant Valid()
        invariant calibration == old(calibration) && state == old(state) && miniatureTimeout == old(miniatureTimeout)
        invariant forall t :: t in minis.Values ==> t in old(minis.Values) || fresh(t)
        invariant ObserveAll(View(), keys, markers[i..], now) == ObserveAll(v0, k0, markers, now)
      {
        ObserveAllStep(View(), keys, markers, i, now);
        Observe(markers[i], now);
        i := i + 1;
      }
    }

    /** One iteration of the marker loop of `_update_tracking`. */
    method Observe(m: Marker, now: real)
      requires Valid()
      modifies this, minis.Values
      ensures Valid()
      ensures View() == CameraRecords.Observe(old(View()), old(keys), m, now).0
      ensures keys == CameraRecords.Observe(old(View()), old(keys), m, now).1
      ensures calibration == old(calibration) && state == old(state) && miniatureTimeout == old(miniatureTimeout)
      ensures forall t :: t in minis.Values ==> t in old(minis.Values) || fresh(t)
    {
      ObserveKeeps(View(), keys, m, now);
      Enter(m.id, now);
      Move(m.id, m, now);
    }

    /** `update_position` on the entry for `id`, with the marker's readings. */
    method Move(id: int, m: Marker, now: real)
      requires Valid() && id in minis
      modifies minis.Values
      ensures Valid()
      ensures View() == old(View())[id := Positioned(old(View())[id], m.x, m.y, m.rotation, m.pixelX, m.pixelY,
                                                     Smoothing, now)]
    {
      ghost var v := View();
      var t := minis[id];
      t.UpdatePosition(m.x, m.y, m.rotation, m.pixelX, m.pixelY, Smoothing, now);
      forall k | k in minis && k != id ensures minis[k].Rec() == v[k] {
        assert minis[k].markerId == k;
      }
      assert View() == v[id := t.Rec()];
    }

    /** Creates the entry for `id`, as first seen at `now`, unless it exists. */
    method Enter(id: int, now: real)
      requires Valid()
      modifies this
      ensures Valid() && id in minis
      ensures View() == if id in old(View()) then old(View()) else old(View())[id := Fresh(id, now)]
      ensures keys == if id in old(View()) then old(keys) else old(keys) + [id]
      ensures calibration == old(calibration) && state == old(state) && miniatureTimeout == old(miniatureTimeout)
      ensures forall t :: t in minis.Values ==> t in old(minis.Values) || fresh(t)
    {
      if id !in minis {
        var t := new TrackedMiniature(id, now);
        ghost var v := View();
        minis, keys := minis[id := t], keys + [id];
        assert View() == v[id := Fresh(id, now)];
        assert forall k :: k in keys <==> k in old(keys) || k == id;
        assert Distinct(keys) by {
          forall i, j | 0 <= i < j < |keys| ensures keys[i] != keys[j] {
            if j == |old(keys)| {
              assert keys[i] == old(keys)[i];
            }
          }
        }
      }
    }

    /** The second loop of `_update_tracking`: hides the unseen entries past the timeout. */
    method FadeAll(seen: set<int>, now: real)
      requires Valid()
      modifies minis.Values
      ensures Valid()
      ensures View() == Fade(old(View()), seen, now, miniatureTimeout)
    {
      ghost var v0 := View();
      KeysIn(v0, keys);
      var i := 0;
      while i < |keys|
        invariant 0 <= i <= |keys|
        invariant Valid() && View().Keys == v0.Keys
        invariant forall j :: 0 <= j < i ==> View()[keys[j]] == FadeEntry(v0[keys[j]], keys[j], seen, now, miniatureTimeout)
        invariant forall j :: i <= j < |keys| ==> View()[keys[j]] == v0[keys[j]]
      {
        var k := keys[i];
        if k !in seen && now - minis[k].lastSeen > miniatureTimeout {
          HideEntry(k);
        }
        i := i + 1;
      }
      FadeByKeys(v0, View(), keys, seen, now, miniatureTimeout);
    }

    /** Marks the entry for `id` invisible. */
    method HideEntry(id: int)
      requires Valid() && id in minis
      modifies minis.Values
      ensures Valid()
      ensures View() == old(View())[id := old(View())[id].(isVisible := false)]
    {
      ghost var v := View();
      var t := minis[id];
      t.Hide();
      forall k | k in minis && k != id ensures minis[k].Rec() == v[k] {
        assert minis[k].markerId == k;
      }
      assert View() == v[id := t.Rec()];
    }

    /** `assign_player_to_miniature`: creates the entry if absent; always succeeds. */
    method AssignPlayer(id: int, playerId: string, playerName: string, characterName: Option<string>, now: real)
      returns (ok: bool)
      requires Valid()
      modifies this, minis.Values
      ensures Valid() && ok
      ensures View() == Assigned(old(View()), id, playerId, playerName, characterName, now)
      ensures keys == AssignedKeys(old(View()), old(keys), id)
      ensures calibration == old(calibration) && state == old(state)
    {
      ghost var v0 := View();
      AssignedKeeps(v0, keys, id, playerId, playerName, characterName, now);
      Enter(id, now);
      AssignedInTwoSteps(v0, View(), id, playerId, playerName, characterName, now);
      Carry(id, Some(playerId), Some(playerName), characterName);
      ok := true;
    }

    /** `unassign_miniature`: false for an unknown id, else clears the player. */
    method Unassign(id: int) returns (ok: bool)
      requires Valid()
      modifies minis.Values
      ensures Valid()
      ensures ok == (id in old(View()))
      ensures View() == Unassigned(old(View()), id)
    {
      if id in minis {
        Carry(id, None, None, None);
        ok := true;
      } else {
        ok := false;
      }
    }

    /** Sets the assignment fields of the entry for `id`. */
    method Carry(id: int, playerId: Option<string>, playerName: Option<string>, characterName: Option<string>)
      requires Valid() && id in minis
      modifies minis.Values
      ensures Valid()
      ensures View() == old(View())[id := old(View())[id].(playerId := playerId, playerName := playerName,
                                                         characterName := characterName)]
    {
      ghost var v := View();
      var t := minis[id];
      t.SetPlayer(playerId, playerName, characterName);
      forall k | k in minis && k != id ensures minis[k].Rec() == v[k] {
        assert v[k].markerId == k;
      }
      assert View() == v[id := t.Rec()];
    }

    /** `get_miniature_for_player`: the first entry in insertion order that carries the player. */
    method MiniatureForPlayer(playerId: string) returns (r: Option<TrackedMiniature>)
      requires Valid()
      ensures r.None? <==> FirstAssigned(View(), keys, playerId).None?
      ensures r.Some? ==> FirstAssigned(View(), keys, playerId) == Some(r.value.markerId) && r.value in minis.Values
    {
      var i := 0;
      while i < |keys|
        invariant 0 <= i <= |keys|
        invariant FirstAssigned(View(), keys[i..], playerId) == FirstAssigned(View(), keys, playerId)
      {
        assert keys[i] in minis;
        if minis[keys[i]].playerId == Some(playerId) {
          return Some(minis[keys[i]]);
        }
        i := i + 1;
      }
      r := None;
    }

    /** `start_calibration`: fresh, empty calibration data and the CALIBRATING state. */
    method StartCalibration()
      requires Valid()
      modifies this
      ensures Valid()
      ensures fresh(calibration) && calibration.Rec() == DefaultCal
      ensures state == Calibrating && errorMessage.None?
      ensures minis == old(minis) && keys == old(keys) && running == old(running)
    {
      calibration := new CalibrationData();
      state, errorMessage := Calibrating, None;
    }

    /** `add_calibration_point`: appends to both lists and returns the new count. */
    method AddCalibrationPoint(imageX: real, imageY: real, gameX: real, gameY: real) returns (n: int)
      requires Valid()
      modifies calibration
      ensures Valid()
      ensures calibration.Rec() == old(calibration.Rec()).(
        imagePoints := old(calibration.imagePoints) + [Pos(imageX, imageY)],
        gamePoints := old(calibration.gamePoints) + [Pos(gameX, gameY)])
      ensures n == |calibration.imagePoints| == |calibration.gamePoints|
    {
      calibration.AddPoint(Pos(imageX, imageY), Pos(gameX, gameY));
      n := |calibration.imagePoints|;
    }

    /** `finish_calibration`: on success CONNECTED, or STREAMING while the capture loop runs. */
    method FinishCalibration(cv: Cv) returns (ok: bool)
      requires Valid()
      modifies this, calibration
      ensures Valid()
      ensures calibration == old(calibration) && calibration.Rec() == Calculated(old(calibration.Rec()), cv).0
      ensures ok == Calculated(old(calibration.Rec()), cv).1
      ensures ok ==> state == (if running then Streaming else Connected) && errorMessage.None?
      ensures !ok ==> state == old(state) && errorMessage == old(errorMessage)
      ensures minis == old(minis) && keys == old(keys) && running == old(running)
    {
      CalculatedSpec(calibration.Rec(), cv);
      ok := calibration.CalculateHomography(cv);
      if ok {
        state, errorMessage := if !running then Connected else Streaming, None;
      }
    }

    /** `set_simple_calibration`: the four frame corners onto the four corners of the game area. */
    method SetSimpleCalibration(gameWidth: real, gameHeight: real, cv: Cv) returns (ok: bool)
      requires Valid()
      modifies calibration
      ensures Valid()
      ensures calibration.Rec() == Calculated(old(calibration.Rec()).(gameWidth := gameWidth, gameHeight := gameHeight,
        imagePoints := FrameCorners(frameWidth, frameHeight), gamePoints := GameCorners(gameWidth, gameHeight)), cv).0
      ensures ok == Calculated(old(calibration.Rec()).(gameWidth := gameWidth, gameHeight := gameHeight,
        imagePoints := FrameCorners(frameWidth, frameHeight), gamePoints := GameCorners(gameWidth, gameHeight)), cv).1
    {
      calibration.SetCorners(frameWidth, frameHeight, gameWidth, gameHeight);
      CalculatedSpec(calibration.Rec(), cv);
      ok := calibration.CalculateHomography(cv);
    }
  }
}
