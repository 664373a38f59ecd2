/** The tile categories both tile-config tools write out, with their display name, icon and colour. */
module TileCatalog {
  datatype CategoryInfo = CategoryInfo(name: string, icon: string, color: string)

  /** The category a tile table names. */
  datatype Category = Terrain | Woods | Water | Urban | Rough | Rubble | Hazards

  /** The key a category is written under. */
  function CategoryKey(c: Category): string {
    match c
    case Terrain => "terrain"
    case Woods => "woods"
    case Water => "water"
    case Urban => "urban"
    case Rough => "rough"
    case Rubble => "rubble"
    case Hazards => "hazards"
  }

  /** `CATEGORY_INFO` of tools/organize_tiles.py, the same table tools/generate_tiles_config.py writes. */
  const Categories: map<string, CategoryInfo> := map[
    "terrain" := CategoryInfo("Terreno", "🌿", "#4a7c23"),
    "woods" := CategoryInfo("Bosques", "🌲", "#2e7d32"),
    "water" := CategoryInfo("Agua", "💧", "#1976d2"),
    "urban" := CategoryInfo("Urbano", "🏢", "#757575"),
    "rough" := CategoryInfo("Rocoso", "🪨", "#8d6e63"),
    "rubble" := CategoryInfo("Escombros", "🧱", "#a1887f"),
    "hazards" := CategoryInfo("Peligros", "⚠️", "#f44336")
  ]

  /** Every category has its style in the table, so looking one up never raises `KeyError`. */
  lemma CategoriesComplete(c: Category)
    ensures CategoryKey(c) in Categories
  {
  }
}
