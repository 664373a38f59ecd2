/**
 * The deterministic parts of the YOLO figurine detector of
 * vision/yolo_detector.py: the four-corner calibration, the normalisation
 * of a pixel position into the calibrated box, and the "Figurita n" names
 * handed out to tracking ids.
 */
module Yolo {
  import opened Wrappers
  import opened Strings

  datatype Point = Point(x: real, y: real)

  /** The calibration record: the corner points and their bounding box. */
  datatype Calibration = Calibration(points: seq<Point>, minX: real, maxX: real, minY: real, maxY: real)

  /** `min` over a non-empty list. */
  function Min(xs: seq<real>): (m: real)
    requires |xs| > 0
    ensures m in xs && forall i :: 0 <= i < |xs| ==> m <= xs[i]
    decreases |xs|
  {
    if |xs| == 1 then xs[0]
    else
      var rest := Min(xs[1..]);
      assert forall i :: 1 <= i < |xs| ==> xs[i] == xs[1..][i - 1];
      if xs[0] <= rest then xs[0] else rest
  }

  /** `max` over a non-empty list. */
  function Max(xs: seq<real>): (m: real)
    requires |xs| > 0
    ensures m in xs && forall i :: 0 <= i < |xs| ==> xs[i] <= m
    decreases |xs|
  {
    if |xs| == 1 then xs[0]
    else
      var rest := Max(xs[1..]);
      assert forall i :: 1 <= i < |xs| ==> xs[i] == xs[1..][i - 1];
      if rest <= xs[0] then xs[0] else rest
  }

  function Xs(ps: seq<Point>): (r: seq<real>)
    ensures |r| == |ps| && forall i :: 0 <= i < |ps| ==> r[i] == ps[i].x
  {
    seq(|ps|, i requires 0 <= i < |ps| => ps[i].x)
  }

  function Ys(ps: seq<Point>): (r: seq<real>)
    ensures |r| == |ps| && forall i :: 0 <= i < |ps| ==> r[i] == ps[i].y
  {
    seq(|ps|, i requires 0 <= i < |ps| => ps[i].y)
  }

  /** The calibration `set_calibration` stores for four points. */
  function Calibrated(ps: seq<Point>): (c: Calibration)
    requires |ps| == 4
    ensures c.points == ps && c.minX <= c.maxX && c.minY <= c.maxY
    ensures forall i :: 0 <= i < 4 ==> c.minX <= ps[i].x <= c.maxX && c.minY <= ps[i].y <= c.maxY
    ensures (exists i :: 0 <= i < 4 && ps[i].x == c.minX) && (exists i :: 0 <= i < 4 && ps[i].x == c.maxX)
    ensures (exists i :: 0 <= i < 4 && ps[i].y == c.minY) && (exists i :: 0 <= i < 4 && ps[i].y == c.maxY)
  {
    var xs, ys := Xs(ps), Ys(ps);
    var c := Calibration(ps, Min(xs), Max(xs), Min(ys), Max(ys));
    assert c.minX <= xs[0] <= c.maxX && c.minY <= ys[0] <= c.maxY;
    c
  }

  /** `max(0, min(1, v))`. */
  function Clamp01(v: real): (r: real)
    ensures 0.0 <= r <= 1.0
    ensures 0.0 <= v <= 1.0 ==> r == v
    ensures v <= 0.0 ==> r == 0.0
    ensures v >= 1.0 ==> r == 1.0
  {
    if v < 0.0 then 0.0 else if v > 1.0 then 1.0 else v
  }

  /**
   * `apply_calibration`: the position unchanged without a calibration, else
   * its place in the calibrated box clamped to [0,1]; a box of zero width or
   * height divides by zero, reported as none.
   */
  function Normalized(cal: Option<Calibration>, x: real, y: real): (r: Option<Point>)
    ensures cal.None? ==> r == Some(Point(x, y))
    ensures cal.Some? ==> (r.None? <==> cal.value.maxX == cal.value.minX || cal.value.maxY == cal.value.minY)
    ensures cal.Some? && r.Some? ==> 0.0 <= r.value.x <= 1.0 && 0.0 <= r.value.y <= 1.0
  {
    if cal.None? then Some(Point(x, y))
    else
      var c := cal.value;
      if c.maxX == c.minX || c.maxY == c.minY then None
      else Some(Point(Unit(x, c.minX, c.maxX), Unit(y, c.minY, c.maxY)))
  }

  /** The place of `v` between `lo` and `hi`, clamped to [0,1]. */
  function Unit(v: real, lo: real, hi: real): real
    requires lo != hi
  {
    Clamp01((v - lo) / (hi - lo))
  }

  /** Between a proper `lo` and `hi`: the ends go to 0 and 1, outside is clamped, inside reads back. */
  lemma UnitSpec(v: real, lo: real, hi: real)
    requires lo < hi
    ensures Unit(lo, lo, hi) == 0.0 && Unit(hi, lo, hi) == 1.0
    ensures v <= lo ==> Unit(v, lo, hi) == 0.0
    ensures v >= hi ==> Unit(v, lo, hi) == 1.0
    ensures lo <= v <= hi ==> lo + Unit(v, lo, hi) * (hi - lo) == v
  {
    Ratio(v - lo, hi - lo);
    Ratio(hi - lo, hi - lo);
    Ratio(0.0, hi - lo);
  }

  /** The facts about `a / d` for a positive `d` that the normalisation needs. */
  lemma Ratio(a: real, d: real)
    requires d > 0.0
    ensures (a / d) * d == a
    ensures a >= d ==> a / d >= 1.0
    ensures a <= d ==> a / d <= 1.0
    ensures a >= 0.0 ==> a / d >= 0.0
    ensures a <= 0.0 ==> a / d <= 0.0
  {
    var q := a / d;
    assert (q - 1.0) * d == a - d;
  }

  /**
   * In a proper box the corners go to 0 and 1, positions outside are clamped,
   * and a position inside the box can be read back from its normalised value.
   */
  lemma NormalizedSpec(c: Calibration, x: real, y: real)
    requires c.minX < c.maxX && c.minY < c.maxY
    ensures Normalized(Some(c), c.minX, c.minY) == Some(Point(0.0, 0.0))
    ensures Normalized(Some(c), c.maxX, c.maxY) == Some(Point(1.0, 1.0))
    ensures x <= c.minX ==> Normalized(Some(c), x, y).value.x == 0.0
    ensures x >= c.maxX ==> Normalized(Some(c), x, y).value.x == 1.0
    ensures c.minX <= x <= c.maxX ==> c.minX + Normalized(Some(c), x, y).value.x * (c.maxX - c.minX) == x
    ensures c.minY <= y <= c.maxY ==> c.minY + Normalized(Some(c), x, y).value.y * (c.maxY - c.minY) == y
  {
    UnitSpec(x, c.minX, c.maxX);
    UnitSpec(y, c.minY, c.maxY);
  }

  /** Normalisation keeps the order of positions along x. */
  lemma NormalizedMonotone(c: Calibration, x1: real, x2: real, y: real)
    requires c.minX < c.maxX && c.minY < c.maxY && x1 <= x2
    ensures Normalized(Some(c), x1, y).value.x <= Normalized(Some(c), x2, y).value.x
  {
    var w := c.maxX - c.minX;
    assert (x1 - c.minX) / w <= (x2 - c.minX) / w;
  }

  /** One box `detect` reads from the model: its tracking id (if any), class id and class name. */
  datatype Box = Box(trackId: Option<int>, classId: int, className: string)

  /** One detection `detect` reports: its id, class id, shown name and model class name. */
  datatype Detection = Detection(id: int, classId: int, className: string, originalClass: string)

  /** `track_id` is truthy: present and not 0. */
  predicate Tracked(b: Box) {
    b.trackId.Some? && b.trackId.value != 0
  }

  /** The name the n-th figurine gets. */
  function FigurineLabel(n: int): string {
    "Figurita " + IntText(n)
  }

  /** Labels of different numbers differ. */
  lemma FigurineLabelInjective(m: int, n: int)
    requires 1 <= m && 1 <= n && m != n
    ensures FigurineLabel(m) != FigurineLabel(n)
  {
    NatTextInjective(m, n);
    var pre := "Figurita ";
    assert FigurineLabel(m)[|pre|..] == NatText(m);
    assert FigurineLabel(n)[|pre|..] == NatText(n);
  }

  /** Every name was given to some number below `next`, and no two ids share a name. */
  ghost predicate NamesOk(names: map<int, string>, next: int) {
    (forall k :: k in names ==> exists n :: 1 <= n < next && names[k] == FigurineLabel(n)) &&
    (forall k1, k2 :: k1 in names && k2 in names && k1 != k2 ==> names[k1] != names[k2])
  }

  /** The naming step of `detect` for one box: the new names, the new counter and the name shown. */
  function NameBox(names: map<int, string>, next: int, figurineMode: bool, b: Box): (map<int, string>, int, string) {
    if figurineMode && Tracked(b) then
      var id := b.trackId.value;
      if id in names then (names, next, names[id])
      else (names[id := FigurineLabel(next)], next + 1, FigurineLabel(next))
    else (names, next, b.className)
  }

  /**
   * A tracked box in figurine mode shows its id's name, which it gets (with the
   * counter advancing) only on the id's first sighting; names already given
   * never change; the names stay distinct.
   */
  lemma NameBoxSpec(names: map<int, string>, next: int, figurineMode: bool, b: Box)
    requires NamesOk(names, next) && next >= 1
    ensures var r := NameBox(names, next, figurineMode, b);
      NamesOk(r.0, r.1) && r.1 >= next &&
      (forall k :: k in names ==> k in r.0 && r.0[k] == names[k]) &&
      (figurineMode && Tracked(b) ==> (b.trackId.value in r.0 && r.2 == r.0[b.trackId.value] &&
        r.1 == (if b.trackId.value in names then next else next + 1))) &&
      (!(figurineMode && Tracked(b)) ==> r == (names, next, b.className))
  {
    var r := NameBox(names, next, figurineMode, b);
    if figurineMode && Tracked(b) && b.trackId.value !in names {
      var id := b.trackId.value;
      forall k | k in names ensures names[k] != FigurineLabel(next) {
        var n :| 1 <= n < next && names[k] == FigurineLabel(n);
        FigurineLabelInjective(n, next);
      }
      forall k | k in r.0 ensures exists n :: 1 <= n < r.1 && r.0[k] == FigurineLabel(n) {
        if k != id {
          var n :| 1 <= n < next && names[k] == FigurineLabel(n);
          assert 1 <= n < r.1 && r.0[k] == FigurineLabel(n);
        } else {
          assert 1 <= next < r.1 && r.0[k] == FigurineLabel(next);
        }
      }
    }
  }

  /**
   * The loop of `detect` from box `i` on: ignored classes are skipped; each
   * other box is named and reported under its tracking id, or under its
   * position among all boxes when it has none.
   */
  function Detected(names: map<int, string>, next: int, figurineMode: bool, ignore: set<int>, boxes: seq<Box>,
                    i: nat): (map<int, string>, int, seq<Detection>)
    decreases |boxes|
  {
    if boxes == [] then (names, next, [])
    else if boxes[0].classId in ignore then Detected(names, next, figurineMode, ignore, boxes[1..], i + 1)
    else
      var b := boxes[0];
      var s := NameBox(names, next, figurineMode, b);
      var rest := Detected(s.0, s.1, figurineMode, ignore, boxes[1..], i + 1);
      (rest.0, rest.1, [Detection(if Tracked(b) then b.trackId.value else i, b.classId, s.2, b.className)] + rest.2)
  }

  /** One step of the loop at box `i`. */
  lemma DetectedStep(names: map<int, string>, next: int, figurineMode: bool, ignore: set<int>, boxes: seq<Box>, i: nat)
    requires i < |boxes|
    ensures Detected(names, next, figurineMode, ignore, boxes[i..], i) ==
      if boxes[i].classId in ignore then Detected(names, next, figurineMode, ignore, boxes[i + 1..], i + 1)
      else
        var s := NameBox(names, next, figurineMode, boxes[i]);
        var rest := Detected(s.0, s.1, figurineMode, ignore, boxes[i + 1..], i + 1);
        (rest.0, rest.1,
         [Detection(if Tracked(boxes[i]) then boxes[i].trackId.value else i, boxes[i].classId, s.2, boxes[i].className)]
         + rest.2)
  {
    assert boxes[i..][1..] == boxes[i + 1..];
    assert boxes[i..][0] == boxes[i];
  }

  /** What `detect`'s loop has done by box `i`: `ds` so far, and the rest yields `goal`. */
  ghost predicate DetectedSoFar(names: map<int, string>, next: int, figurineMode: bool, ignore: set<int>,
                                boxes: seq<Box>, i: nat, ds: seq<Detection>, goal: (map<int, string>, int, seq<Detection>))
    requires i <= |boxes|
  {
    var r := Detected(names, next, figurineMode, ignore, boxes[i..], i);
    r.0 == goal.0 && r.1 == goal.1 && ds + r.2 == goal.2
  }

  /** An ignored box adds nothing. */
  lemma DetectedSkip(names: map<int, string>, next: int, figurineMode: bool, ignore: set<int>,
                     boxes: seq<Box>, i: nat, ds: seq<Detection>, goal: (map<int, string>, int, seq<Detection>))
    requires i < |boxes| && boxes[i].classId in ignore
    requires DetectedSoFar(names, next, figurineMode, ignore, boxes, i, ds, goal)
    ensures DetectedSoFar(names, next, figurineMode, ignore, boxes, i + 1, ds, goal)
  {
    DetectedStep(names, next, figurineMode, ignore, boxes, i);
  }

  /** A kept box adds its detection, under the name `NameBox` gives it. */
  lemma DetectedKeep(names: map<int, string>, next: int, figurineMode: bool, ignore: set<int>,
                     boxes: seq<Box>, i: nat, ds: seq<Detection>, goal: (map<int, string>, int, seq<Detection>),
                     names': map<int, string>, next': int, shown: string)
    requires i < |boxes| && boxes[i].classId !in ignore
    requires DetectedSoFar(names, next, figurineMode, ignore, boxes, i, ds, goal)
    requires (names', next', shown) == NameBox(names, next, figurineMode, boxes[i])
    ensures DetectedSoFar(names', next', figurineMode, ignore, boxes, i + 1,
      ds + [Detection(if Tracked(boxes[i]) then boxes[i].trackId.value else i, boxes[i].classId, shown,
                      boxes[i].className)], goal)
  {
    DetectedStep(names, next, figurineMode, ignore, boxes, i);
    var d := Detection(if Tracked(boxes[i]) then boxes[i].trackId.value else i, boxes[i].classId, shown,
                       boxes[i].className);
    var rest := Detected(names', next', figurineMode, ignore, boxes[i + 1..], i + 1);
    assert ds + ([d] + rest.2) == (ds + [d]) + rest.2;
  }

  /** The boxes `detect` reports on. */
  function Kept(ignore: set<int>, boxes: seq<Box>): (r: seq<Box>)
    ensures forall j :: 0 <= j < |r| ==> r[j].classId !in ignore
    decreases |boxes|
  {
    if boxes == [] then []
    else if boxes[0].classId in ignore then Kept(ignore, boxes[1..])
    else [boxes[0]] + Kept(ignore, boxes[1..])
  }

  /**
   * Over a whole frame: one detection per box not ignored, with that box's
   * class; names already given never change, the counter never goes back, the
   * names stay distinct, and outside figurine mode nothing is named.
   */
  lemma {:induction false} DetectedSpec(names: map<int, string>, next: int, figurineMode: bool, ignore: set<int>,
                                        boxes: seq<Box>, i: nat)
    requires NamesOk(names, next) && next >= 1
    ensures var r := Detected(names, next, figurineMode, ignore, boxes, i);
      NamesOk(r.0, r.1) && r.1 >= next &&
      (forall k :: k in names ==> k in r.0 && r.0[k] == names[k]) &&
      |r.2| == |Kept(ignore, boxes)| &&
      (forall j :: 0 <= j < |r.2| ==> r.2[j].classId == Kept(ignore, boxes)[j].classId &&
                                       r.2[j].originalClass == Kept(ignore, boxes)[j].className) &&
      (!figurineMode ==> (r.0 == names && r.1 == next &&
        forall j :: 0 <= j < |r.2| ==> r.2[j].className == Kept(ignore, boxes)[j].className))
    decreases |boxes|
  {
    if boxes != [] {
      if boxes[0].classId in ignore {
        DetectedSpec(names, next, figurineMode, ignore, boxes[1..], i + 1);
      } else {
        var s := NameBox(names, next, figurineMode, boxes[0]);
        NameBoxSpec(names, next, figurineMode, boxes[0]);
        DetectedSpec(s.0, s.1, figurineMode, ignore, boxes[1..], i + 1);
      }
    }
  }

  /** `YOLODetector`: the calibration and the figurine names it keeps between frames. */
  class YoloDetector {
    var calibration: Option<Calibration>
    /** Whether boxes are shown as numbered figurines (the source switches this off). */
    var figurineMode: bool
    var figurineNames: map<int, string>
    var nextFigurineNum: int
    /** The COCO classes never reported (furniture and the like). */
    const ignoreClasses: set<int>

    ghost predicate Valid()
      reads this
    {
      NamesOk(figurineNames, nextFigurineNum) && nextFigurineNum >= 1
    }

    constructor(figurineMode: bool, ignoreClasses: set<int>)
      ensures Valid() && calibration.None? && figurineNames == map[] && nextFigurineNum == 1
      ensures this.figurineMode == figurineMode && this.ignoreClasses == ignoreClasses
    {
      calibration, this.figurineMode := None, figurineMode;
      figurineNames, nextFigurineNum := map[], 1;
      this.ignoreClasses := ignoreClasses;
    }

    /** `set_calibration`: exactly four points are stored with their box; any other count changes nothing. */
    method SetCalibration(points: seq<Point>)
      modifies this`calibration
      ensures calibration == if |points| == 4 then Some(Calibrated(points)) else old(calibration)
    {
      if |points| == 4 {
        calibration := Some(Calibrated(points));
      }
    }

    /** The naming step of `detect` for one box, on this detector's names and counter. */
    method NameFor(b: Box) returns (shown: string)
      requires Valid()
      modifies this`figurineNames, this`nextFigurineNum
      ensures Valid()
      ensures (figurineNames, nextFigurineNum, shown) == NameBox(old(figurineNames), old(nextFigurineNum), figurineMode, b)
    {
      NameBoxSpec(figurineNames, nextFigurineNum, figurineMode, b);
      if figurineMode && Tracked(b) {
        if b.trackId.value !in figurineNames {
          figurineNames := figurineNames[b.trackId.value := FigurineLabel(nextFigurineNum)];
          nextFigurineNum := nextFigurineNum + 1;
        }
        shown := figurineNames[b.trackId.value];
      } else {
        shown := b.className;
      }
    }

    /** The box loop of `detect`, naming figurines as it goes. */
    method Detect(boxes: seq<Box>) returns (ds: seq<Detection>)
      requires Valid()
      modifies this`figurineNames, this`nextFigurineNum
      ensures Valid()
      ensures (figurineNames, nextFigurineNum, ds) ==
        Detected(old(figurineNames), old(nextFigurineNum), figurineMode, ignoreClasses, boxes, 0)
    {
      ghost var goal := Detected(figurineNames, nextFigurineNum, figurineMode, ignoreClasses, boxes, 0);
      ds := [];
      var i := 0;
      assert boxes[0..] == boxes;
      assert [] + goal.2 == goal.2;
      while i < |boxes|
        invariant 0 <= i <= |boxes| && Valid()
        invariant DetectedSoFar(figurineNames, nextFigurineNum, figurineMode, ignoreClasses, boxes, i, ds, goal)
      {
        var b := boxes[i];
        if b.classId !in ignoreClasses {
          ghost var names, next := figurineNames, nextFigurineNum;
          var shown := NameFor(b);
          DetectedKeep(names, next, figurineMode, ignoreClasses, boxes, i, ds, goal, figurineNames, nextFigurineNum, shown);
          ds := ds + [Detection(if Tracked(b) then b.trackId.value else i, b.classId, shown, b.className)];
        } else {
          DetectedSkip(figurineNames, nextFigurineNum, figurineMode, ignoreClasses, boxes, i, ds, goal);
        }
        i := i + 1;
      }
      assert boxes[i..] == [];
      assert ds + [] == ds;
    }
  }
}
