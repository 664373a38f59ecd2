/**
 * tools/update_tile_sizes.py: the classifier from an image's pixel size to a
 * hex count and shape, and the loop that writes the result into each tile of
 * the tile configuration.
 */
module TileSizes {
  import opened Wrappers

  /** One `if` of `get_hex_count`: inclusive width and height ranges and what they give. */
  datatype SizeRule = SizeRule(minW: nat, maxW: nat, minH: nat, maxH: nat, count: nat, shape: string)

  /** The rules of `get_hex_count` in the order they are tried. */
  const Rules: seq<SizeRule> := [
    SizeRule(0, 250, 0, 220, 1, "single"),
    SizeRule(400, 500, 350, 450, 1, "single"),
    SizeRule(700, 800, 500, 600, 2, "h2"),
    SizeRule(400, 500, 700, 800, 2, "v2"),
    SizeRule(700, 800, 700, 800, 3, "tri_down"),
    SizeRule(700, 800, 900, 1000, 4, "h2v2"),
    SizeRule(400, 500, 1400, 1600, 4, "v4"),
    SizeRule(700, 800, 1100, 1200, 5, "h2v3"),
    SizeRule(1050, 1150, 1300, 1400, 6, "h3v2"),
    SizeRule(1050, 1150, 1100, 1200, 7, "mega"),
    SizeRule(1100, 1120, 1140, 1160, 7, "mega"),
    SizeRule(1050, 1150, 700, 800, 4, "h3"),
    SizeRule(1700, 1850, 2200, 2400, 13, "mega13"),
    SizeRule(2000, 2200, 1100, 1200, 10, "h5")
  ]

  /** The pixel area of a basic hex image, 223 by 194, times the factor 4 of the doubled images. */
  const FallbackArea: nat := 223 * 194 * 4

  predicate Matches(rule: SizeRule, w: nat, h: nat) {
    rule.minW <= w <= rule.maxW && rule.minH <= h <= rule.maxH
  }

  /** The index of the first rule that matches the size. */
  function FirstMatch(rules: seq<SizeRule>, w: nat, h: nat): (r: Option<nat>)
    ensures r.Some? ==> r.value < |rules| && Matches(rules[r.value], w, h)
    ensures r.Some? ==> forall j :: 0 <= j < r.value ==> !Matches(rules[j], w, h)
    ensures r.None? ==> forall j :: 0 <= j < |rules| ==> !Matches(rules[j], w, h)
    decreases |rules|
  {
    if rules == [] then None
    else if Matches(rules[0], w, h) then Some(0)
    else match FirstMatch(rules[1..], w, h)
      case Some(i) =>
        assert forall j :: 1 <= j <= i ==> rules[j] == rules[1..][j - 1];
        Some(i + 1)
      case None =>
        assert forall j :: 1 <= j < |rules| ==> rules[j] == rules[1..][j - 1];
        None
  }

  /** The first rule that matches is the one that matches with none matching before it. */
  lemma FirstMatchAt(rules: seq<SizeRule>, w: nat, h: nat, i: nat)
    requires i < |rules| && Matches(rules[i], w, h)
    requires forall j :: 0 <= j < i ==> !Matches(rules[j], w, h)
    ensures FirstMatch(rules, w, h) == Some(i)
  {
  }

  /** A rule whose every match an earlier rule also matches is never the first match. */
  lemma FirstMatchShadowed(rules: seq<SizeRule>, w: nat, h: nat, k: nat, i: nat)
    requires k < i < |rules|
    requires Matches(rules[i], w, h) ==> Matches(rules[k], w, h)
    ensures FirstMatch(rules, w, h) != Some(i)
  {
  }

  /**
   * Python's `round` on the exact quotient `n / d`: the nearest integer, and
   * the even one of two equally near.
   */
  function RoundHalfEven(n: nat, d: nat): (r: nat)
    requires d > 0
    ensures 2 * (r * d) <= 2 * n + d && 2 * n <= 2 * (r * d) + d
    ensures 2 * (r * d) + d == 2 * n || 2 * n + d == 2 * (r * d) ==> r % 2 == 0
  {
    var q, m := n / d, n % d;
    MulNext(q, d);
    if 2 * m < d then q
    else if 2 * m > d then q + 1
    else if q % 2 == 0 then q
    else q + 1
  }

  lemma MulNext(q: nat, d: nat)
    ensures (q + 1) * d == q * d + d
  {
  }

  /** `a * d` and `b * d` for `a < b` and `d > 0` are at least `d` apart, exactly `d` only when `b == a + 1`. */
  lemma MulGap(a: nat, b: nat, d: nat)
    requires a < b && d > 0
    ensures b * d - a * d >= d
    ensures b * d - a * d == d ==> b == a + 1
  {
    assert b * d - a * d == (b - a) * d;
    if b > a + 1 {
      var k: nat := b - a - 2;
      assert (b - a) * d == k * d + 2 * d;
    }
  }

  /** Only one natural number is nearest to `n / d` with ties going to the even one. */
  lemma RoundHalfEvenUnique(n: nat, d: nat, r: nat)
    requires d > 0
    requires 2 * (r * d) <= 2 * n + d && 2 * n <= 2 * (r * d) + d
    requires 2 * (r * d) + d == 2 * n || 2 * n + d == 2 * (r * d) ==> r % 2 == 0
    ensures r == RoundHalfEven(n, d)
  {
    var s := RoundHalfEven(n, d);
    if r < s {
      MulGap(r, s, d);
    } else if r > s {
      MulGap(s, r, d);
    }
  }

  /** The fallback of `get_hex_count`: the image area in basic hex areas, rounded, and at least 1. */
  function Fallback(w: nat, h: nat): (r: nat)
    ensures r >= 1
    ensures r == 1 || r == RoundHalfEven(w * h, FallbackArea)
  {
    var e := RoundHalfEven(w * h, FallbackArea);
    if e < 1 then 1 else e
  }

  /** The fallback gives one hex exactly when the area is less than one and a half hex areas. */
  lemma FallbackOne(w: nat, h: nat)
    ensures Fallback(w, h) == 1 <==> 2 * (w * h) < 3 * FallbackArea
  {
    var n := w * h;
    var e := RoundHalfEven(n, FallbackArea);
    if e >= 2 {
      MulGap(1, e, FallbackArea);
    }
  }

  /** Every rule's count is at least 1, so every answer is. */
  lemma RulesCountPositive()
    ensures forall i :: 0 <= i < |Rules| ==> Rules[i].count >= 1
  {
  }

  /** `get_hex_count`: the first matching rule's count and shape, else the fallback with shape "unknown". */
  function HexCount(w: nat, h: nat): (r: (nat, string))
    ensures r.0 >= 1
  {
    RulesCountPositive();
    match FirstMatch(Rules, w, h)
    case Some(i) => (Rules[i].count, Rules[i].shape)
    case None => (Fallback(w, h), "unknown")
  }

  /** A size of at most 250 by 220 pixels is a single hex. */
  lemma SmallIsSingle(w: nat, h: nat)
    requires w <= 250 && h <= 220
    ensures HexCount(w, h) == (1, "single")
  {
  }

  /** 1050-1150 by 1100-1200 pixels is a 7-hex mega tile. */
  lemma MegaSize(w: nat, h: nat)
    requires 1050 <= w <= 1150 && 1100 <= h <= 1200
    ensures HexCount(w, h) == (7, "mega")
  {
    FirstMatchAt(Rules, w, h, 9);
  }

  /** The rule for 1100-1120 by 1140-1160 is never the first match: the mega rule before it covers it. */
  lemma AlternateMegaUnreachable(w: nat, h: nat)
    ensures FirstMatch(Rules, w, h) != Some(10)
  {
    AlternateMegaCovered(w, h);
    FirstMatchShadowed(Rules, w, h, 9, 10);
  }

  /** Every size the rule at index 10 matches is matched by the rule at index 9. */
  lemma AlternateMegaCovered(w: nat, h: nat)
    ensures Matches(Rules[10], w, h) ==> Matches(Rules[9], w, h)
  {
    assert Rules[9] == SizeRule(1050, 1150, 1100, 1200, 7, "mega");
    assert Rules[10] == SizeRule(1100, 1120, 1140, 1160, 7, "mega");
  }

  /** 1050-1150 by 700-800 pixels gives (4, "h3"). */
  lemma H3Size(w: nat, h: nat)
    requires 1050 <= w <= 1150 && 700 <= h <= 800
    ensures HexCount(w, h) == (4, "h3")
  {
    FirstMatchAt(Rules, w, h, 11);
  }

  /** No rule before the last reaches a width of 2000 pixels. */
  lemma NarrowRules()
    ensures forall j :: 0 <= j < 13 ==> Rules[j].maxW < 2000
  {
  }

  /** 2000-2200 by 1100-1200 pixels gives (10, "h5"). */
  lemma H5Size(w: nat, h: nat)
    requires 2000 <= w <= 2200 && 1100 <= h <= 1200
    ensures HexCount(w, h) == (10, "h5")
  {
    NarrowRules();
    FirstMatchAt(Rules, w, h, 13);
  }

  /** A size no rule covers gets the fallback count and shape "unknown". */
  lemma UnmatchedIsFallback(w: nat, h: nat)
    requires forall i :: 0 <= i < |Rules| ==> !Matches(Rules[i], w, h)
    ensures HexCount(w, h) == (Fallback(w, h), "unknown")
  {
  }

  /** A JSON value of a tile's field, as far as the loop looks at it. */
  datatype Value = Str(s: string) | Num(n: int) | Bool(b: bool) | Null

  /** One tile of the configuration: its fields by name. */
  type Tile = map<string, Value>

  /** Python truthiness of a value. */
  predicate Truthy(v: Value) {
    match v
    case Str(s) => s != ""
    case Num(n) => n != 0
    case Bool(b) => b
    case Null => false
  }

  /** `os.path.basename` with `/` separators: the text after the last `/`. */
  function Basename(p: string): (r: string)
    ensures '/' !in r
    ensures |r| <= |p| && p[|p| - |r|..] == r
    ensures |r| < |p| ==> p[|p| - |r| - 1] == '/'
    decreases |p|
  {
    if p == [] || p[|p| - 1] == '/' then []
    else
      var r0 := Basename(p[..|p| - 1]);
      assert p[..|p| - 1][|p| - 1 - |r0|..] == r0;
      assert p[|p| - 1 - |r0|..] == r0 + [p[|p| - 1]];
      r0 + [p[|p| - 1]]
  }

  /** What the loop does with one tile: skip it, stop with an error, or update it from the image size. */
  datatype Step = Skip | Crash | Update(w: nat, h: nat)

  /**
   * One pass of the loop on one tile: a missing or falsy 'file' skips it; a
   * truthy value that is not text makes `os.path.basename` raise; an image
   * that is not found skips it; a found image whose tile has no 'name' raises
   * `KeyError` when the result is printed.
   */
  function StepOf(tile: Tile, sizes: map<string, (nat, nat)>): (r: Step)
    ensures r.Update? ==> "file" in tile && tile["file"].Str? && Basename(tile["file"].s) in sizes && "name" in tile
    ensures r.Crash? ==> "file" in tile && Truthy(tile["file"])
  {
    if "file" !in tile || !Truthy(tile["file"]) then Skip
    else if !tile["file"].Str? then Crash
    else
      var b := Basename(tile["file"].s);
      if b !in sizes then Skip
      else if "name" !in tile then Crash
      else Update(sizes[b].0, sizes[b].1)
  }

  /** The update of one tile for a hex count and shape. */
  function Applied(tile: Tile, count: nat, shape: string): Tile {
    if count > 1 then tile["hexCount" := Num(count)]["shape" := Str(shape)]
    else tile - {"hexCount", "shape", "size"}
  }

  /**
   * A multi-hex count sets 'hexCount' and 'shape'; a single hex removes
   * 'hexCount', 'shape' and 'size'; every other field keeps its value.
   */
  lemma AppliedSpec(tile: Tile, count: nat, shape: string)
    ensures var t := Applied(tile, count, shape);
      forall k :: k != "hexCount" && k != "shape" && k != "size" ==> (k in t <==> k in tile) && (k in t ==> t[k] == tile[k])
    ensures count > 1 ==>
      var t := Applied(tile, count, shape);
      "hexCount" in t && t["hexCount"] == Num(count) && "shape" in t && t["shape"] == Str(shape) &&
      ("size" in t <==> "size" in tile)
    ensures count <= 1 ==>
      var t := Applied(tile, count, shape);
      "hexCount" !in t && "shape" !in t && "size" !in t
  {
  }

  /** Applying the same count and shape again changes nothing. */
  lemma AppliedIdempotent(tile: Tile, count: nat, shape: string)
    ensures Applied(Applied(tile, count, shape), count, shape) == Applied(tile, count, shape)
  {
    var t := Applied(tile, count, shape);
    if count > 1 {
      assert t["hexCount" := Num(count)]["shape" := Str(shape)] == t;
    } else {
      assert t - {"hexCount", "shape", "size"} == t;
    }
  }

  /** The tile after the loop has passed over it (tiles that stop the loop are left as they were). */
  function Final(tile: Tile, sizes: map<string, (nat, nat)>): Tile {
    match StepOf(tile, sizes)
    case Update(w, h) => Applied(tile, HexCount(w, h).0, HexCount(w, h).1)
    case _ => tile
  }

  /** Updating a tile keeps the fields its step depends on, so its step stays the same. */
  lemma StepOfApplied(tile: Tile, sizes: map<string, (nat, nat)>, count: nat, shape: string)
    requires StepOf(tile, sizes).Update?
    ensures StepOf(Applied(tile, count, shape), sizes) == StepOf(tile, sizes)
  {
    AppliedSpec(tile, count, shape);
    var t := Applied(tile, count, shape);
    assert "file" in t && t["file"] == tile["file"] && "name" in t;
  }

  /** Running the script a second time changes nothing more. */
  lemma FinalIdempotent(tile: Tile, sizes: map<string, (nat, nat)>)
    ensures StepOf(Final(tile, sizes), sizes) == StepOf(tile, sizes)
    ensures Final(Final(tile, sizes), sizes) == Final(tile, sizes)
  {
    var step := StepOf(tile, sizes);
    if step.Update? {
      var hc := HexCount(step.w, step.h);
      assert Final(tile, sizes) == Applied(tile, hc.0, hc.1);
      StepOfApplied(tile, sizes, hc.0, hc.1);
      AppliedIdempotent(tile, hc.0, hc.1);
    }
  }

  /**
   * The body of the loop of `main` on one tile: none when it raises,
   * otherwise the tile after its pass.
   */
  method UpdateTile(tile: Tile, sizes: map<string, (nat, nat)>) returns (r: Option<Tile>)
    ensures r.None? <==> StepOf(tile, sizes).Crash?
    ensures r.Some? ==> r.value == Final(tile, sizes)
  {
    var step := StepOf(tile, sizes);
    if step.Crash? {
      return None;
    }
    r := Some(tile);
    if step.Update? {
      var (count, shape) := HexCount(step.w, step.h);
      r := Some(Applied(tile, count, shape));
    }
  }

  /**
   * The loop of `main` over the configuration's tiles, with `sizes` giving
   * the pixel size of each image file found in the tiles directory: none
   * when some tile raises (the file is then not written), otherwise every
   * tile after its pass.
   */
  method UpdateTiles(tiles: map<string, Tile>, sizes: map<string, (nat, nat)>) returns (r: Option<map<string, Tile>>)
    ensures r.None? <==> exists id :: id in tiles && StepOf(tiles[id], sizes).Crash?
    ensures r.Some? ==> r.value.Keys == tiles.Keys
    ensures r.Some? ==> forall id :: id in tiles ==> r.value[id] == Final(tiles[id], sizes)
  {
    var result := tiles;
    var todo := tiles.Keys;
    while todo != {}
      invariant todo <= tiles.Keys && result.Keys == tiles.Keys
      invariant forall id :: id in tiles ==> result[id] == if id in todo then tiles[id] else Final(tiles[id], sizes)
      invariant forall id :: id in tiles && id !in todo ==> !StepOf(tiles[id], sizes).Crash?
      decreases todo
    {
      var id :| id in todo;
      var out := UpdateTile(result[id], sizes);
      if out.None? {
        return None;
      }
      result := result[id := out.value];
      todo := todo - {id};
    }
    r := Some(result);
  }
}
