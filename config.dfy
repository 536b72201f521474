/** The mod's settings as the core reads them, passed as a record. */
module Config {

  datatype ModConfig = ModConfig(
    /** Columns when some stock entry has a price or a trade cost. */
    shopItemPerRow: int,
    /** Columns otherwise (dressers, catalogues). */
    dresserItemPerRow: int,
    /** Batch sizes for Shift, Shift+Ctrl and Shift+Ctrl+1. */
    stackCount5: int,
    stackCount25: int,
    stackCount999: int,
    enableSearch: bool,
    searchByDescription: bool,
    enableTabCategory: bool,
    enableTabDetailedSeeds: bool,
    enableTabPlantableSeeds: bool,
    enableTabRecipes: bool,
    /** Whether the Bigger Backpack mod is installed (detected at start-up, moves the search box). */
    hasModBiggerBackpack: bool)
}
