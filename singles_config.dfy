/**
 * The loop of tools/generate_tiles_config.py that turns each single-tile
 * image's file stem ("12_0", "11") into an entry of the singles tile
 * configuration.
 */
module SinglesConfig {
  import opened Wrappers
  import opened Seqs
  import opened Strings
  import opened TileCatalog

  /** One row of the script's `TILE_INFO`: name, category, movement cost and defence bonus. */
  datatype SingleInfo = SingleInfo(name: string, category: Category, movementCost: int, defenseBonus: int)

  /** One entry of the generated configuration. */
  datatype SingleTile = SingleTile(id: string, name: string, category: string, file: string, movementCost: int,
                                   defenseBonus: int, group: Option<string>)

  /** What one file stem gives: `int()` raises, the base tile is unknown, or an entry. */
  datatype Outcome = Raises | Skipped | Made(tile: SingleTile)

  /** The script's `TILE_INFO`: the row of a tile number, none for a tile without singles. */
  function Info(n: int): Option<SingleInfo> {
    match n
    case 11 => Some(SingleInfo("Llanura", Terrain, 1, 0))
    case 12 => Some(SingleInfo("Llanura Mega", Terrain, 1, 0))
    case 13 => Some(SingleInfo("Bosque 1", Woods, 2, 1))
    case 14 => Some(SingleInfo("Bosque 2", Woods, 2, 1))
    case 15 => Some(SingleInfo("Bosque Denso 1", Woods, 3, 2))
    case 16 => Some(SingleInfo("Bosque 3", Woods, 2, 1))
    case 17 => Some(SingleInfo("Bosque Denso 2", Woods, 3, 2))
    case 18 => Some(SingleInfo("Bosque Denso 3", Woods, 3, 2))
    case 19 => Some(SingleInfo("Bosque 4", Woods, 2, 1))
    case 20 => Some(SingleInfo("Bosque 5", Woods, 2, 1))
    case 21 => Some(SingleInfo("Bosque Denso 4", Woods, 3, 2))
    case 22 => Some(SingleInfo("Lago 1", Water, 4, 0))
    case 23 => Some(SingleInfo("Lago 2", Water, 4, 0))
    case 24 => Some(SingleInfo("Lago 3", Water, 4, 0))
    case 25 => Some(SingleInfo("Lago 4", Water, 4, 0))
    case 27 => Some(SingleInfo("Río 1", Water, 3, 0))
    case 28 => Some(SingleInfo("Río 2", Water, 3, 0))
    case 29 => Some(SingleInfo("Río 3", Water, 3, 0))
    case 30 => Some(SingleInfo("Río 4", Water, 3, 0))
    case 31 => Some(SingleInfo("Río 5", Water, 3, 0))
    case 32 => Some(SingleInfo("Río 6", Water, 3, 0))
    case 33 => Some(SingleInfo("Río 7", Water, 3, 0))
    case 34 => Some(SingleInfo("Río 8", Water, 3, 0))
    case 35 => Some(SingleInfo("Río 9", Water, 3, 0))
    case 36 => Some(SingleInfo("Río 10", Water, 3, 0))
    case 37 => Some(SingleInfo("Río 11", Water, 3, 0))
    case 38 => Some(SingleInfo("Río Largo 1", Water, 3, 0))
    case 39 => Some(SingleInfo("Río Largo 2", Water, 3, 0))
    case 40 => Some(SingleInfo("Edificio 1", Urban, 999, 3))
    case 41 => Some(SingleInfo("Edificio 2", Urban, 999, 3))
    case 42 => Some(SingleInfo("Edificio 3", Urban, 999, 3))
    case 43 => Some(SingleInfo("Edificio 4", Urban, 999, 3))
    case 44 => Some(SingleInfo("Edificio 5", Urban, 999, 3))
    case 45 => Some(SingleInfo("Búnker", Urban, 999, 4))
    case 46 => Some(SingleInfo("Edificio Medio 1", Urban, 999, 3))
    case 47 => Some(SingleInfo("Edificio Medio 2", Urban, 999, 3))
    case 48 => Some(SingleInfo("Edificio Medio 3", Urban, 999, 3))
    case 49 => Some(SingleInfo("Edificio Medio 4", Urban, 999, 3))
    case 50 => Some(SingleInfo("Edificio Medio 5", Urban, 999, 3))
    case 51 => Some(SingleInfo("Edificio Grande 1", Urban, 999, 4))
    case 52 => Some(SingleInfo("Edificio Grande 2", Urban, 999, 4))
    case 53 => Some(SingleInfo("Edificio Grande 3", Urban, 999, 4))
    case 54 => Some(SingleInfo("Edificio Grande 4", Urban, 999, 4))
    case 55 => Some(SingleInfo("Edificio Grande 5", Urban, 999, 4))
    case 56 => Some(SingleInfo("Edificio Grande 6", Urban, 999, 4))
    case 57 => Some(SingleInfo("Edificio Grande 7", Urban, 999, 4))
    case 59 => Some(SingleInfo("Rocoso", Rough, 2, 1))
    case 60 => Some(SingleInfo("Terreno Difícil", Rough, 2, 1))
    case 61 => Some(SingleInfo("Rough 1", Rough, 2, 1))
    case 62 => Some(SingleInfo("Rough 2", Rough, 2, 1))
    case 63 => Some(SingleInfo("Rough 3", Rough, 2, 1))
    case 64 => Some(SingleInfo("Rough 4", Rough, 2, 1))
    case 65 => Some(SingleInfo("Rough 5", Rough, 2, 1))
    case 66 => Some(SingleInfo("Rough 6", Rough, 2, 1))
    case 67 => Some(SingleInfo("Escombros 1", Rubble, 2, 1))
    case 68 => Some(SingleInfo("Escombros 2", Rubble, 2, 1))
    case 69 => Some(SingleInfo("Escombros LR 1", Rubble, 2, 1))
    case 70 => Some(SingleInfo("Escombros LR 2", Rubble, 2, 1))
    case 71 => Some(SingleInfo("Minas Vibra", Hazards, 1, 0))
    case 72 => Some(SingleInfo("Minas Detonación", Hazards, 1, 0))
    case 73 => Some(SingleInfo("Minas Convencional", Hazards, 1, 0))
    case 74 => Some(SingleInfo("Humo", Hazards, 1, 1))
    case _ => None
  }

  /** A non-empty run of ASCII digits. */
  predicate AllDigits(s: string) {
    |s| > 0 && forall k :: 0 <= k < |s| ==> '0' <= s[k] <= '9'
  }

  /**
   * `int(s)` on the text of a stem: an optional sign and decimal digits; any
   * other text raises `ValueError` (none).
   */
  function ParseInt(s: string): (r: Option<int>)
    ensures AllDigits(s) ==> r == Some(DigitsValue(s) as int)
  {
    if |s| > 0 && s[0] == '-' then (if AllDigits(s[1..]) then Some(-(DigitsValue(s[1..]) as int)) else None)
    else if |s| > 0 && s[0] == '+' then (if AllDigits(s[1..]) then Some(DigitsValue(s[1..]) as int) else None)
    else if AllDigits(s) then Some(DigitsValue(s) as int)
    else None
  }

  /**
   * Digits read as their value, and with a minus sign before them as the
   * negated value.
   */
  lemma ParseIntOfDigits(t: string, n: nat)
    requires AllDigits(t) && DigitsValue(t) == n
    ensures ParseInt(t) == Some(n as int)
    ensures ParseInt("-" + t) == Some(-(n as int))
  {
    var s := "-" + t;
    assert s[0] == '-';
    assert s[1..] == t;
  }

  /** Reading back the decimal text of an integer gives the integer. */
  lemma ParseIntRoundTrip(i: int)
    ensures ParseInt(IntText(i)) == Some(i)
  {
    var n: nat := if i < 0 then -i else i;
    var t := NatText(n);
    NatTextRoundTrip(n);
    ParseIntOfDigits(t, n);
  }

  /** The text before the first `_` of `s` (all of `s` when there is none). */
  function BeforeUnderscore(s: string): (r: string)
    ensures '_' !in r && r <= s
  {
    match IndexOf(s, '_')
    case Some(j) => s[..j]
    case None => s
  }

  /**
   * The split of a stem by `_`: the base text and, when the stem contains
   * `_`, its second component.
   */
  function SplitStem(stem: string): (string, Option<string>) {
    match IndexOf(stem, '_')
    case Some(j) => (stem[..j], Some(BeforeUnderscore(stem[j + 1..])))
    case None => (stem, None)
  }

  /** Splitting "b_i" for underscore-free parts gives them back. */
  lemma SplitStemPair(b: string, i: string)
    requires '_' !in b && '_' !in i
    ensures SplitStem(b + "_" + i) == (b, Some(i))
  {
    var s := b + "_" + i;
    assert s == b + ("_" + i);
    IndexOfAfter(b, "_" + i);
    assert s[|b| + 1..] == i;
    assert s[..|b|] == b;
  }

  /** A third component after a second `_` does not change the split. */
  lemma SplitStemTriple(b: string, i: string, rest: string)
    requires '_' !in b && '_' !in i
    ensures SplitStem(b + "_" + i + "_" + rest) == (b, Some(i))
  {
    var s := b + "_" + i + "_" + rest;
    assert s == b + ("_" + i + "_" + rest);
    IndexOfAfter(b, "_" + i + "_" + rest);
    var tail := s[|b| + 1..];
    assert tail == i + ("_" + rest);
    IndexOfAfter(i, "_" + rest);
    assert tail[..|i|] == i;
    assert s[..|b|] == b;
  }

  /** The first `_` of `p + q`, when `p` has none and `q` starts with one, is at `|p|`. */
  lemma IndexOfAfter(p: string, q: string)
    requires '_' !in p && |q| > 0 && q[0] == '_'
    ensures IndexOf(p + q, '_') == Some(|p|)
  {
    var s := p + q;
    forall j | 0 <= j < |p| ensures s[j] != '_' {
      assert s[j] == p[j];
    }
    assert s[|p|] == '_';
  }

  /** The entry the loop makes for one stem, or why it makes none. */
  function TileFor(stem: string): Outcome {
    var (baseText, idx) := SplitStem(stem);
    match ParseInt(baseText)
    case None => Raises
    case Some(base) =>
      if Info(base).None? then Skipped
      else
        var info := Info(base).value;
        var id := "bt_" + stem;
        Made(SingleTile(id, if idx.Some? then info.name + " #" + idx.value else info.name, CategoryKey(info.category),
                        "/assets/tiles/battletech_singles/" + stem + ".png", info.movementCost, info.defenseBonus,
                        if idx.Some? && idx.value != "" then Some(IntText(base)) else None))
  }

  /**
   * The stem "b_i" of a known tile b gives an entry named after the tile with
   * " #i", grouped under b's number; the stem "b" gives the tile's own name
   * and no group; an unknown tile gives nothing.
   */
  lemma TileForSpec(b: int, i: string)
    requires '_' !in i
    ensures Info(b).Some? ==>
      var info := Info(b).value;
      var stem := IntText(b) + "_" + i;
      TileFor(stem) == Made(SingleTile("bt_" + stem, info.name + " #" + i, CategoryKey(info.category),
                                       "/assets/tiles/battletech_singles/" + stem + ".png",
                                       info.movementCost, info.defenseBonus,
                                       if i != "" then Some(IntText(b)) else None))
    ensures Info(b).Some? ==>
      var info := Info(b).value;
      TileFor(IntText(b)) == Made(SingleTile("bt_" + IntText(b), info.name, CategoryKey(info.category),
                                             "/assets/tiles/battletech_singles/" + IntText(b) + ".png",
                                             info.movementCost, info.defenseBonus, None))
    ensures Info(b).None? ==> TileFor(IntText(b) + "_" + i) == Skipped && TileFor(IntText(b)) == Skipped
  {
    IntTextNoUnderscore(b);
    SplitStemPair(IntText(b), i);
    assert IndexOf(IntText(b), '_').None?;
    ParseIntRoundTrip(b);
  }

  lemma IntTextNoUnderscore(b: int)
    ensures '_' !in IntText(b)
  {
  }

  /** The script's table has no singles for tiles 26, 58 and 75, which are therefore skipped. */
  lemma MissingTiles()
    ensures Info(26).None? && Info(58).None? && Info(75).None?
    ensures forall n :: 11 <= n <= 74 && n != 26 && n != 58 ==> Info(n).Some?
  {
  }

  /** A made entry's id is "bt_" followed by its stem. */
  lemma MadeId(stem: string)
    ensures TileFor(stem).Made? ==> TileFor(stem).tile.id == "bt_" + stem
  {
  }

  /**
   * The store into `tiles`: the first outcome that raises stops everything
   * (none); otherwise each entry made is stored under its id. Entries that
   * share an id are the same entry, so the order of stores does not matter.
   */
  method Collect(outs: seq<Outcome>) returns (r: Option<map<string, SingleTile>>)
    requires forall i, j :: (0 <= i < |outs| && 0 <= j < |outs| && outs[i].Made? && outs[j].Made? &&
                             outs[i].tile.id == outs[j].tile.id) ==> outs[i] == outs[j]
    ensures r.None? <==> exists i :: 0 <= i < |outs| && outs[i].Raises?
    ensures r.Some? ==> forall i :: 0 <= i < |outs| && outs[i].Made? ==>
      outs[i].tile.id in r.value && r.value[outs[i].tile.id] == outs[i].tile
    ensures r.Some? ==> forall k :: k in r.value ==> exists i :: 0 <= i < |outs| && outs[i].Made? && outs[i].tile.id == k
  {
    var tiles: map<string, SingleTile> := map[];
    var i := 0;
    while i < |outs|
      invariant 0 <= i <= |outs|
      invariant forall j :: 0 <= j < i ==> !outs[j].Raises?
      invariant forall j :: 0 <= j < i && outs[j].Made? ==> outs[j].tile.id in tiles && tiles[outs[j].tile.id] == outs[j].tile
      invariant forall k :: k in tiles ==> exists j :: 0 <= j < i && outs[j].Made? && outs[j].tile.id == k
    {
      if outs[i].Raises? {
        return None;
      }
      if outs[i].Made? {
        tiles := tiles[outs[i].tile.id := outs[i].tile];
      }
      i := i + 1;
    }
    r := Some(tiles);
  }

  /**
   * The file loop: the stems in sorted order; the first stem whose base is
   * not a number stops the script (none, nothing written); otherwise every
   * entry made is stored under its id.
   */
  method Generate(stems: seq<string>) returns (r: Option<map<string, SingleTile>>)
    ensures r.None? <==> exists i :: 0 <= i < |stems| && TileFor(stems[i]).Raises?
    ensures r.Some? ==> forall i :: 0 <= i < |stems| && TileFor(stems[i]).Made? ==>
      "bt_" + stems[i] in r.value && r.value["bt_" + stems[i]] == TileFor(stems[i]).tile
    ensures r.Some? ==> forall k :: k in r.value ==>
      exists i :: 0 <= i < |stems| && TileFor(stems[i]).Made? && k == "bt_" + stems[i]
  {
    var outs := seq(|stems|, j requires 0 <= j < |stems| => TileFor(stems[j]));
    forall i | 0 <= i < |outs| && outs[i].Made? ensures outs[i].tile.id == "bt_" + stems[i] {
      MadeId(stems[i]);
    }
    forall i, j | 0 <= i < |outs| && 0 <= j < |outs| && outs[i].Made? && outs[j].Made? && outs[i].tile.id == outs[j].tile.id
      ensures outs[i] == outs[j]
    {
      PrefixCancels("bt_", stems[i], stems[j]);
    }
    r := Collect(outs);
  }

  lemma PrefixCancels(p: string, s: string, t: string)
    requires p + s == p + t
    ensures s == t
  {
    assert s == (p + s)[|p|..];
    assert t == (p + t)[|p|..];
  }
}
