/**
 * `generate_config` of tools/organize_tiles.py: the editor's tile
 * configuration, one entry per numbered BattleTech tile with its thumbnail,
 * terrain values and category style.
 */
module OrganizeTiles {
  import opened Wrappers
  import opened Strings
  import opened TileCatalog

  /** One row of `TILE_INFO`; `blocksLOS` false stands for the key being absent. */
  datatype TileInfo = TileInfo(name: string, category: Category, movementCost: int, defenseBonus: int,
                               blocksLOS: bool, special: Option<string>, size: Option<string>)

  /** One tile of the generated configuration; `blocks` stands for both `blocksLOS` and `blocksVision` being set. */
  datatype TileEntry = TileEntry(id: string, name: string, category: string, file: string, thumbnail: Option<string>,
                                 movementCost: int, defenseBonus: int, color: string, icon: string, blocks: bool,
                                 special: Option<string>, size: Option<string>)

  datatype Config = Config(system: string, name: string, gridType: string, hexSize: int,
                           categories: map<string, CategoryInfo>, tiles: map<string, TileEntry>)

  /** The rows of `TILE_INFO` in key order: row i is tile 11 + i. */
  const TileRows: seq<TileInfo> := [
    TileInfo("Llanura", Terrain, 1, 0, false, None, None),
    TileInfo("Llanura (Mega)", Terrain, 1, 0, false, None, Some("mega")),
    TileInfo("Bosque 1", Woods, 2, 1, false, None, None),
    TileInfo("Bosque 2", Woods, 2, 1, false, None, None),
    TileInfo("Bosque Denso 1", Woods, 3, 2, true, None, None),
    TileInfo("Bosque 3", Woods, 2, 1, false, None, None),
    TileInfo("Bosque Denso 2", Woods, 3, 2, true, None, None),
    TileInfo("Bosque Denso 3", Woods, 3, 2, true, None, None),
    TileInfo("Bosque 4", Woods, 2, 1, false, None, None),
    TileInfo("Bosque 5", Woods, 2, 1, false, None, None),
    TileInfo("Bosque Denso 4", Woods, 3, 2, true, None, None),
    TileInfo("Lago 1", Water, 4, 0, false, None, None),
    TileInfo("Lago 2", Water, 4, 0, false, None, None),
    TileInfo("Lago 3", Water, 4, 0, false, None, None),
    TileInfo("Lago 4", Water, 4, 0, false, None, None),
    TileInfo("Lago Grande", Water, 4, 0, false, None, Some("large")),
    TileInfo("Río 1", Water, 3, 0, false, None, None),
    TileInfo("Río 2", Water, 3, 0, false, None, None),
    TileInfo("Río 3", Water, 3, 0, false, None, None),
    TileInfo("Río 4", Water, 3, 0, false, None, None),
    TileInfo("Río 5", Water, 3, 0, false, None, None),
    TileInfo("Río 6", Water, 3, 0, false, None, None),
    TileInfo("Río 7", Water, 3, 0, false, None, None),
    TileInfo("Río 8", Water, 3, 0, false, None, None),
    TileInfo("Río 9", Water, 3, 0, false, None, None),
    TileInfo("Río 10", Water, 3, 0, false, None, None),
    TileInfo("Río 11", Water, 3, 0, false, None, None),
    TileInfo("Río Largo 1", Water, 3, 0, false, None, Some("long")),
    TileInfo("Río Largo 2", Water, 3, 0, false, None, Some("long")),
    TileInfo("Edificio 1", Urban, 999, 3, true, None, None),
    TileInfo("Edificio 2", Urban, 999, 3, true, None, None),
    TileInfo("Edificio 3", Urban, 999, 3, true, None, None),
    TileInfo("Edificio 4", Urban, 999, 3, true, None, None),
    TileInfo("Edificio 5", Urban, 999, 3, true, None, None),
    TileInfo("Búnker", Urban, 999, 4, true, None, None),
    TileInfo("Edificio Medio 1", Urban, 999, 3, true, None, None),
    TileInfo("Edificio Medio 2", Urban, 999, 3, true, None, None),
    TileInfo("Edificio Medio 3", Urban, 999, 3, true, None, None),
    TileInfo("Edificio Medio 4", Urban, 999, 3, true, None, None),
    TileInfo("Edificio Medio 5", Urban, 999, 3, true, None, None),
    TileInfo("Edificio Grande 1", Urban, 999, 4, true, None, None),
    TileInfo("Edificio Grande 2", Urban, 999, 4, true, None, None),
    TileInfo("Edificio Grande 3", Urban, 999, 4, true, None, None),
    TileInfo("Edificio Grande 4", Urban, 999, 4, true, None, None),
    TileInfo("Edificio Grande 5", Urban, 999, 4, true, None, None),
    TileInfo("Edificio Grande 6", Urban, 999, 4, true, None, None),
    TileInfo("Edificio Grande 7", Urban, 999, 4, true, None, None),
    TileInfo("Complejo Industrial", Urban, 999, 4, true, None, Some("mega")),
    TileInfo("Rocoso", Rough, 2, 1, false, None, None),
    TileInfo("Terreno Difícil", Rough, 2, 1, false, None, None),
    TileInfo("Rough 1", Rough, 2, 1, false, None, None),
    TileInfo("Rough 2", Rough, 2, 1, false, None, None),
    TileInfo("Rough 3", Rough, 2, 1, false, None, None),
    TileInfo("Rough 4", Rough, 2, 1, false, None, None),
    TileInfo("Rough 5", Rough, 2, 1, false, None, None),
    TileInfo("Rough 6", Rough, 2, 1, false, None, None),
    TileInfo("Escombros 1", Rubble, 2, 1, false, None, None),
    TileInfo("Escombros 2", Rubble, 2, 1, false, None, None),
    TileInfo("Escombros LR 1", Rubble, 2, 1, false, None, None),
    TileInfo("Escombros LR 2", Rubble, 2, 1, false, None, None),
    TileInfo("Minas Vibra", Hazards, 1, 0, false, Some("mine_vibra"), None),
    TileInfo("Minas Detonación", Hazards, 1, 0, false, Some("mine_command"), None),
    TileInfo("Minas Convencional", Hazards, 1, 0, false, Some("mine_conv"), None),
    TileInfo("Humo", Hazards, 1, 1, true, None, None),
    TileInfo("Fuego", Hazards, 2, 0, false, Some("fire"), None)
  ]

  /** `TILE_INFO`: the tiles numbered 11 to 75. */
  const TileTable: map<nat, TileInfo> := map n: nat | 11 <= n <= 75 :: TileRows[n - 11]

  /** `THUMBNAIL_MAP`, in its key order: thumbnail 76 + i shows tile 11 + i, for i below 65. */
  const ThumbnailMap: seq<(nat, nat)> := seq(65, i => (76 + i, 11 + i))

  /** A non-empty optional string, as Python's truth test reads it. */
  function Present(s: Option<string>): Option<string> {
    if s.Some? && s.value != "" then s else None
  }

  function TileId(n: nat): string {
    "tile_" + NatText(n)
  }

  /** The search of `generate_config`: the first thumbnail whose original is tile `n`. */
  function FirstThumb(thumbs: seq<(nat, nat)>, n: nat): (r: Option<nat>)
    ensures r.Some? ==> exists i :: 0 <= i < |thumbs| && thumbs[i] == (r.value, n)
    ensures r.None? ==> forall i :: 0 <= i < |thumbs| ==> thumbs[i].1 != n
    decreases |thumbs|
  {
    if thumbs == [] then None
    else if thumbs[0].1 == n then Some(thumbs[0].0)
    else
      var r := FirstThumb(thumbs[1..], n);
      assert forall i :: 1 <= i < |thumbs| ==> thumbs[i] == thumbs[1..][i - 1];
      r
  }

  /** The entry `generate_config` writes for tile `n`. */
  function Entry(n: nat, info: TileInfo, thumbs: seq<(nat, nat)>, categories: map<string, CategoryInfo>): TileEntry
    requires CategoryKey(info.category) in categories
  {
    var thumb := FirstThumb(thumbs, n);
    TileEntry(TileId(n), info.name, CategoryKey(info.category), "/assets/tiles/battletech/" + NatText(n) + ".png",
              if thumb.Some? && thumb.value != 0
              then Some("/assets/tiles/battletech/thumbnails/" + NatText(thumb.value) + ".png") else None,
              info.movementCost, info.defenseBonus, categories[CategoryKey(info.category)].color,
              categories[CategoryKey(info.category)].icon, info.blocksLOS, Present(info.special), Present(info.size))
  }

  /** Every thumbnail of the table shows the tile 65 below it, and only tiles 11 to 75 have one. */
  lemma ThumbnailOffset(n: nat)
    ensures 11 <= n <= 75 ==> FirstThumb(ThumbnailMap, n) == Some(n + 65)
    ensures !(11 <= n <= 75) ==> FirstThumb(ThumbnailMap, n).None?
  {
    if 11 <= n <= 75 {
      FirstThumbAt(ThumbnailMap, n, n - 11);
    }
  }

  /** The search result is the pair at the first position holding `n`. */
  lemma {:induction false} FirstThumbAt(thumbs: seq<(nat, nat)>, n: nat, i: nat)
    requires i < |thumbs| && thumbs[i].1 == n && forall j :: 0 <= j < i ==> thumbs[j].1 != n
    ensures FirstThumb(thumbs, n) == Some(thumbs[i].0)
    decreases i
  {
    if i > 0 {
      assert thumbs[1..][i - 1] == thumbs[i];
      forall j | 0 <= j < i - 1 ensures thumbs[1..][j].1 != n {
        assert thumbs[1..][j] == thumbs[j + 1];
      }
      FirstThumbAt(thumbs[1..], n, i - 1);
    }
  }

  /** The table holds exactly the tiles 11 to 75. */
  lemma TileTableKeys()
    ensures forall n :: n in TileTable <==> 11 <= n <= 75
  {
  }

  /**
   * A tile's entry: its id and file are built from its number, its terrain
   * values and name are copied, its colour and icon come from its category,
   * both blocking flags are set exactly when the tile blocks line of sight,
   * and `special` and `size` appear only when the tile has them.
   */
  lemma EntrySpec(n: nat, info: TileInfo, thumbs: seq<(nat, nat)>, categories: map<string, CategoryInfo>)
    requires CategoryKey(info.category) in categories
    ensures var e := Entry(n, info, thumbs, categories);
      e.id == "tile_" + NatText(n) && e.file == "/assets/tiles/battletech/" + NatText(n) + ".png" &&
      e.name == info.name && e.category == CategoryKey(info.category) && e.movementCost == info.movementCost &&
      e.defenseBonus == info.defenseBonus && e.color == categories[CategoryKey(info.category)].color &&
      e.icon == categories[CategoryKey(info.category)].icon && e.blocks == info.blocksLOS &&
      (e.special.Some? <==> info.special.Some? && info.special.value != "") &&
      (e.special.Some? ==> e.special == info.special) &&
      (e.size.Some? <==> info.size.Some? && info.size.value != "") && (e.size.Some? ==> e.size == info.size) &&
      (e.thumbnail.Some? <==> exists i :: 0 <= i < |thumbs| && thumbs[i].1 == n && thumbs[i].0 != 0 &&
                                forall j :: 0 <= j < i ==> thumbs[j].1 != n)
  {
    var r := FirstThumb(thumbs, n);
    if r.Some? {
      var i :| 0 <= i < |thumbs| && thumbs[i] == (r.value, n);
      var i0 := FirstAt(thumbs, n, i);
      FirstThumbAt(thumbs, n, i0);
    }
    forall i | 0 <= i < |thumbs| && thumbs[i].1 == n && forall j :: 0 <= j < i ==> thumbs[j].1 != n
      ensures r == Some(thumbs[i].0)
    {
      FirstThumbAt(thumbs, n, i);
    }
  }

  /** The first position holding `n`, given some position that does. */
  lemma FirstAt(thumbs: seq<(nat, nat)>, n: nat, i: nat) returns (i0: nat)
    requires i < |thumbs| && thumbs[i].1 == n
    ensures i0 <= i && thumbs[i0].1 == n && forall j :: 0 <= j < i0 ==> thumbs[j].1 != n
  {
    i0 := i;
    while exists j :: 0 <= j < i0 && thumbs[j].1 == n
      invariant i0 <= i && thumbs[i0].1 == n
      decreases i0
    {
      var j :| 0 <= j < i0 && thumbs[j].1 == n;
      i0 := j;
    }
  }

  /** The inner loop of `generate_config`: the search with `break`. */
  method FindThumbnail(thumbs: seq<(nat, nat)>, n: nat) returns (t: Option<nat>)
    ensures t == FirstThumb(thumbs, n)
  {
    t := None;
    var i := 0;
    while i < |thumbs|
      invariant 0 <= i <= |thumbs| && FirstThumb(thumbs[i..], n) == FirstThumb(thumbs, n)
    {
      assert thumbs[i..][1..] == thumbs[i + 1..];
      if thumbs[i].1 == n {
        t := Some(thumbs[i].0);
        break;
      }
      i := i + 1;
    }
    if t.None? {
      assert thumbs[i..] == [];
    }
  }

  /**
   * `generate_config`: the categories copied, and one entry per tile of
   * `tileInfo`, keyed by its id; every category must have a style, or the
   * lookup would raise `KeyError` (`CategoriesComplete` shows the table has one).
   */
  method GenerateConfig(tileInfo: map<nat, TileInfo>, thumbs: seq<(nat, nat)>, categories: map<string, CategoryInfo>)
    returns (config: Config)
    requires forall c: Category :: CategoryKey(c) in categories
    ensures config.system == "battletech" && config.name == "BattleTech" && config.gridType == "hex"
    ensures config.hexSize == 84 && config.categories == categories
    ensures forall n :: n in tileInfo ==>
      TileId(n) in config.tiles && config.tiles[TileId(n)] == Entry(n, tileInfo[n], thumbs, categories)
    ensures forall k :: k in config.tiles ==> exists n :: n in tileInfo && k == TileId(n)
  {
    var cats := CopyCategories(categories);
    var tiles: map<string, TileEntry> := map[];
    var todo := tileInfo.Keys;
    while todo != {}
      invariant todo <= tileInfo.Keys
      invariant forall n :: n in tileInfo && n !in todo ==>
        TileId(n) in tiles && tiles[TileId(n)] == Entry(n, tileInfo[n], thumbs, categories)
      invariant forall k :: k in tiles ==> exists n :: n in tileInfo && n !in todo && k == TileId(n)
      decreases todo
    {
      var n :| n in todo;
      var info := tileInfo[n];
      var thumb := FindThumbnail(thumbs, n);
      var entry := TileEntry(TileId(n), info.name, CategoryKey(info.category), "/assets/tiles/battletech/" + NatText(n) + ".png",
                             if thumb.Some? && thumb.value != 0
                             then Some("/assets/tiles/battletech/thumbnails/" + NatText(thumb.value) + ".png")
                             else None,
                             info.movementCost, info.defenseBonus, categories[CategoryKey(info.category)].color,
                             categories[CategoryKey(info.category)].icon, info.blocksLOS, Present(info.special), Present(info.size));
      forall m | m in tileInfo && m !in todo ensures TileId(m) != TileId(n) {
        TileIdInjective(m, n);
      }
      tiles := tiles[TileId(n) := entry];
      todo := todo - {n};
    }
    config := Config("battletech", "BattleTech", "hex", 84, cats, tiles);
  }

  /** The categories loop of `generate_config`: name, icon and colour of each category, copied. */
  method CopyCategories(categories: map<string, CategoryInfo>) returns (r: map<string, CategoryInfo>)
    ensures r == categories
  {
    r := map[];
    var todo := categories.Keys;
    while todo != {}
      invariant todo <= categories.Keys && r.Keys == categories.Keys - todo
      invariant forall k :: k in r ==> r[k] == categories[k]
      decreases todo
    {
      var k :| k in todo;
      var c := categories[k];
      r := r[k := CategoryInfo(c.name, c.icon, c.color)];
      todo := todo - {k};
    }
  }

  /** Different tiles get different ids. */
  lemma TileIdInjective(m: nat, n: nat)
    requires m != n
    ensures TileId(m) != TileId(n)
  {
    NatTextInjective(m, n);
    assert TileId(m)[5..] == NatText(m);
    assert TileId(n)[5..] == NatText(n);
  }
}
