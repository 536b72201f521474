/** The tab filters and the text search of the search context
    (CompactSearchableShopMenu/SearchContext.cs): which catalog entries a tab shows and which
    entries match the search text. */
module Filters {
  import opened Host
  import opened Config
  import opened Seqs

  /** The tab keys. In the source they are strings; `category_<n>` keys carry the category, and no
      other key starts with `category_`, so distinct tabs have distinct keys. */
  datatype TabId = NoFilter | CategoryTab(category: int) | Recipes
                 | SeedsCropPlantable | SeedsCrop | SeedsTree | SeedsBush

  /** The key of the seeds category tab, `category_-74`. */
  const CategorySeeds := CategoryTab(SeedsCategory)

  // ---------------------------------------------------------------- the filter predicates

  /** Recipes are kept out of the other tabs exactly while the recipes tab is enabled. */
  predicate ShouldIncludeRecipe(cfg: ModConfig, s: Salable) {
    if cfg.enableTabRecipes then !s.isRecipe else true
  }

  /** An object seed whose crop grows in the current season. */
  predicate CheckPlantableThisSeason(s: Salable) {
    s.kind == Obj && s.plantableThisSeason
  }

  /** Seeds plantable now are kept out of the crop tab exactly while the plantable tab is enabled. */
  predicate ShouldIncludePlantable(cfg: ModConfig, s: Salable) {
    if cfg.enableTabPlantableSeeds then !CheckPlantableThisSeason(s) else true
  }

  predicate FilterRecipe(s: Salable) {
    s.isRecipe
  }

  predicate FilterCategory(cfg: ModConfig, category: int, s: Salable) {
    ShouldIncludeRecipe(cfg, s) && s.IsItem() && s.category == category
  }

  /** An object in the seeds category that is no sapling. */
  predicate FilterSeedCropShared(cfg: ModConfig, s: Salable) {
    && ShouldIncludeRecipe(cfg, s)
    && s.kind == Obj
    && s.category == SeedsCategory
    && !(s.isTeaSapling || s.isWildTreeSapling || s.isFruitTreeSapling)
  }

  predicate FilterSeedCrop(cfg: ModConfig, s: Salable) {
    FilterSeedCropShared(cfg, s) && ShouldIncludePlantable(cfg, s)
  }

  predicate FilterSeedCropPlantable(cfg: ModConfig, s: Salable) {
    FilterSeedCropShared(cfg, s) && CheckPlantableThisSeason(s)
  }

  predicate FilterSeedTree(cfg: ModConfig, s: Salable) {
    ShouldIncludeRecipe(cfg, s) && s.kind == Obj && (s.isWildTreeSapling || s.isFruitTreeSapling)
  }

  predicate FilterSeedBush(cfg: ModConfig, s: Salable) {
    ShouldIncludeRecipe(cfg, s) && s.kind == Obj && s.isTeaSapling
  }

  /** The filter stored with tab `id`. The NO_FILTER tab's filter throws, so it has none here. */
  predicate Accepts(cfg: ModConfig, id: TabId, s: Salable)
    requires id != NoFilter
  {
    match id
    case CategoryTab(c) => FilterCategory(cfg, c, s)
    case Recipes => FilterRecipe(s)
    case SeedsCropPlantable => FilterSeedCropPlantable(cfg, s)
    case SeedsCrop => FilterSeedCrop(cfg, s)
    case SeedsTree => FilterSeedTree(cfg, s)
    case SeedsBush => FilterSeedBush(cfg, s)
  }

  /** No entry is in the crop tab and also in the tree or bush tab. */
  lemma CropExcludesSaplings(cfg: ModConfig, s: Salable)
    ensures FilterSeedCrop(cfg, s) ==> !FilterSeedTree(cfg, s) && !FilterSeedBush(cfg, s)
    ensures FilterSeedCropPlantable(cfg, s) ==> !FilterSeedTree(cfg, s) && !FilterSeedBush(cfg, s)
  {
  }

  /** With the plantable tab enabled, every non-sapling seed is in exactly one of the crop and plantable tabs. */
  lemma CropSplitsByPlantable(cfg: ModConfig, s: Salable)
    requires cfg.enableTabPlantableSeeds && FilterSeedCropShared(cfg, s)
    ensures FilterSeedCrop(cfg, s) != FilterSeedCropPlantable(cfg, s)
  {
  }

  /** While the recipes tab is enabled, no other tab shows a recipe. */
  lemma RecipesOnlyInRecipeTab(cfg: ModConfig, id: TabId, s: Salable)
    requires cfg.enableTabRecipes && id != NoFilter && id != Recipes && s.isRecipe
    ensures !Accepts(cfg, id, s)
  {
  }

  // ---------------------------------------------------------------- text search

  /** ASCII lower-casing of one character. */
  function LowerChar(c: char): (d: char)
    ensures 'A' <= c <= 'Z' ==> 'a' <= d <= 'z'
    ensures 'A' <= c <= 'Z' ==> d as int == c as int - 'A' as int + 'a' as int
    ensures !('A' <= c <= 'Z') ==> d == c
  {
    if 'A' <= c <= 'Z' then (c as int - 'A' as int + 'a' as int) as char else c
  }

  function Lower(s: string): (r: string)
    ensures |r| == |s|
    ensures forall i :: 0 <= i < |s| ==> r[i] == LowerChar(s[i])
  {
    if s == [] then [] else [LowerChar(s[0])] + Lower(s[1..])
  }

  /** `needle` occurs in `hay` as a contiguous piece. */
  predicate IsInfix(needle: string, hay: string)
    decreases |hay|
  {
    needle <= hay || (hay != [] && IsInfix(needle, hay[1..]))
  }

  /** ContainsIgnoreCase: `needle` occurs in `hay` once both are lower-cased. */
  predicate ContainsIgnoreCase(hay: string, needle: string) {
    IsInfix(Lower(needle), Lower(hay))
  }

  /** `needle` is the slice of `hay` that starts at `i`. */
  predicate OccursAt(needle: string, hay: string, i: int) {
    0 <= i <= |hay| - |needle| && hay[i..i + |needle|] == needle
  }

  /** A slice of the tail is the slice of the text one position further on. */
  lemma TailSlice(hay: string, i: int, n: int)
    requires 1 <= i && 0 <= n && i + n <= |hay|
    ensures hay[1..][i - 1..i - 1 + n] == hay[i..i + n]
  {
  }

  /** IsInfix means: the needle is the slice of the text at some position. */
  lemma {:induction false} IsInfixAt(needle: string, hay: string)
    ensures IsInfix(needle, hay) <==> exists i :: OccursAt(needle, hay, i)
  {
    if needle <= hay {
      assert OccursAt(needle, hay, 0);
    }
    if hay != [] {
      IsInfixAt(needle, hay[1..]);
      if IsInfix(needle, hay[1..]) {
        var i :| OccursAt(needle, hay[1..], i);
        TailSlice(hay, i + 1, |needle|);
        assert OccursAt(needle, hay, i + 1);
      }
      if exists i :: OccursAt(needle, hay, i) {
        var i :| OccursAt(needle, hay, i);
        if i > 0 {
          TailSlice(hay, i, |needle|);
          assert OccursAt(needle, hay[1..], i - 1);
        } else {
          assert needle <= hay;
        }
      }
    } else {
      if exists i :: OccursAt(needle, hay, i) {
        var i :| OccursAt(needle, hay, i);
        assert needle == [];
      }
    }
  }

  lemma {:induction false} LowerIdempotent(s: string)
    ensures Lower(Lower(s)) == Lower(s)
  {
  }

  /** The case of the search text does not matter, and the empty text matches everything. */
  lemma NeedleCaseIgnored(hay: string, needle: string)
    ensures ContainsIgnoreCase(hay, Lower(needle)) == ContainsIgnoreCase(hay, needle)
    ensures ContainsIgnoreCase(hay, "")
  {
    LowerIdempotent(needle);
    assert Lower("") == "";
  }

  /** A name matches any piece of itself, in any case. */
  lemma PieceMatches(before: string, piece: string, after: string)
    ensures ContainsIgnoreCase(before + piece + after, piece)
  {
    var hay := before + piece + after;
    var lh, lp := Lower(hay), Lower(piece);
    assert lh[|before|..|before| + |lp|] == lp;
    assert OccursAt(lp, lh, |before|);
    IsInfixAt(lp, lh);
  }

  /** SearchSalables: the display name matches, or the description does when that is enabled. */
  predicate SearchSalables(cfg: ModConfig, searchText: string, s: Salable) {
    ContainsIgnoreCase(s.displayName, searchText)
    || (cfg.searchByDescription && ContainsIgnoreCase(s.description, searchText))
  }

  // ---------------------------------------------------------------- the visible list

  /** The cached list as the current tab shows it: filtered by the tab's predicate, except for
      NO_FILTER and a current id that is not (or no longer) a tab. */
  function TabView(cfg: ModConfig, all: seq<Salable>, current: TabId, tabs: set<TabId>): seq<Salable> {
    if current != NoFilter && current in tabs then Filter(all, s => Accepts(cfg, current, s)) else all
  }

  /** What DoSearch shows: the tab view, then, while the box is selected with non-empty text, only
      the entries that match the text. */
  function Visible(cfg: ModConfig, all: seq<Salable>, current: TabId, tabs: set<TabId>,
                   searching: bool, searchText: string): seq<Salable>
  {
    var v := TabView(cfg, all, current, tabs);
    if searching && searchText != [] then Filter(v, s => SearchSalables(cfg, searchText, s)) else v
  }

  /** The visible list keeps the cache's order and only drops entries. */
  lemma VisibleIsSubsequence(cfg: ModConfig, all: seq<Salable>, current: TabId, tabs: set<TabId>,
                             searching: bool, searchText: string)
    ensures IsSubsequence(Visible(cfg, all, current, tabs, searching, searchText), all)
  {
    var v := TabView(cfg, all, current, tabs);
    if current != NoFilter && current in tabs {
      FilterIsSubsequence(all, s => Accepts(cfg, current, s));
    } else {
      SubsequenceOfSelf(all);
    }
    if searching && searchText != [] {
      FilterIsSubsequence(v, s => SearchSalables(cfg, searchText, s));
      SubsequenceTransitive(Filter(v, s => SearchSalables(cfg, searchText, s)), v, all);
    }
  }

  /** An entry is visible exactly when it is cached, passes the current tab and matches the text. */
  lemma VisibleMembership(cfg: ModConfig, all: seq<Salable>, current: TabId, tabs: set<TabId>,
                          searching: bool, searchText: string, s: Salable)
    ensures s in Visible(cfg, all, current, tabs, searching, searchText) <==>
            && s in all
            && (current != NoFilter && current in tabs ==> Accepts(cfg, current, s))
            && (searching && searchText != [] ==> SearchSalables(cfg, searchText, s))
  {
    var v := TabView(cfg, all, current, tabs);
    if current != NoFilter && current in tabs {
      FilterMembership(all, x => Accepts(cfg, current, x), s);
    }
    if searching && searchText != [] {
      FilterMembership(v, x => SearchSalables(cfg, searchText, x), s);
    }
  }

  /** Searching the visible list again with the same tab and text changes nothing. */
  lemma VisibleIdempotent(cfg: ModConfig, all: seq<Salable>, current: TabId, tabs: set<TabId>,
                          searching: bool, searchText: string)
    ensures var v := Visible(cfg, all, current, tabs, searching, searchText);
            Visible(cfg, v, current, tabs, searching, searchText) == v
  {
    var tab := (s: Salable) => current != NoFilter && current in tabs && Accepts(cfg, current, s);
    var text := (s: Salable) => SearchSalables(cfg, searchText, s);
    var v := Visible(cfg, all, current, tabs, searching, searchText);
    if current != NoFilter && current in tabs {
      var accept := (s: Salable) => Accepts(cfg, current, s);
      var t := Filter(all, accept);
      FilterIdempotent(all, accept);
      if searching && searchText != [] {
        // filter by tab, then text; the second pass filters again by tab (keeps all) and text
        FilterCompose(all, accept, text);
        var both := (s: Salable) => accept(s) && text(s);
        assert v == Filter(t, text);
        assert forall i :: 0 <= i < |v| ==> v[i] in v;
        FilterKeepsAll(v, accept);
        FilterIdempotent(t, text);
      }
    } else if searching && searchText != [] {
      FilterIdempotent(all, text);
    }
  }

  lemma {:induction false} SubsequenceTransitive<T>(a: seq<T>, b: seq<T>, c: seq<T>)
    requires IsSubsequence(a, b) && IsSubsequence(b, c)
    ensures IsSubsequence(a, c)
    decreases |c|
  {
    if c != [] {
      if b != [] && b[0] == c[0] && IsSubsequence(b[1..], c[1..]) {
        if a != [] && a[0] == b[0] && IsSubsequence(a[1..], b[1..]) {
          SubsequenceTransitive(a[1..], b[1..], c[1..]);
        } else {
          SubsequenceTransitive(a, b[1..], c[1..]);
        }
      } else {
        SubsequenceTransitive(a, b, c[1..]);
      }
    } else {
      assert b == [];
    }
  }

  lemma LowerSee()
    ensures Lower("see") == "see"
  {
    var see := Lower("see");
    assert see[0] == 's' && see[1] == 'e' && see[2] == 'e';
  }

  lemma SeeInSeeds()
    ensures ContainsIgnoreCase("Seeds", "see")
  {
    var seeds := Lower("Seeds");
    LowerSee();
    assert seeds[..3] == "see";
  }

  lemma SeeNotInAxe()
    ensures !ContainsIgnoreCase("Axe", "see")
  {
    var axe := Lower("Axe");
    LowerSee();
    assert |axe| == 3 && axe[0] == 'a';
    assert forall i :: !OccursAt("see", axe, i);
    IsInfixAt("see", axe);
  }

  /** The text "see" finds "Seeds" but not "Axe". */
  lemma SearchExample(cfg: ModConfig)
    requires !cfg.searchByDescription
    ensures SearchSalables(cfg, "see", Salable(1, "Seeds", "", Obj, SeedsCategory, false, false, false, false, false))
    ensures !SearchSalables(cfg, "see", Salable(2, "Axe", "", OtherItem, 0, false, false, false, false, false))
  {
    SeeInSeeds();
    SeeNotInAxe();
  }
}
