/** The tab registry that the search context's constructor builds
    (CompactSearchableShopMenu/SearchContext.cs): which tabs a shop gets and in which order. */
module Registry {
  import opened Host
  import opened Config
  import opened Seqs
  import opened Filters

  // ---------------------------------------------------------------- the scans of the stock

  /** Enumerable.FirstOrDefault(filter of tab `id`): the first entry the tab's filter accepts. */
  function FirstAccepted(cfg: ModConfig, s: seq<Salable>, id: TabId): Option<Salable>
    requires id != NoFilter
  {
    if s == [] then None
    else if Accepts(cfg, id, s[0]) then Some(s[0])
    else FirstAccepted(cfg, s[1..], id)
  }

  /** The first accepted entry is missing exactly when no entry passes the filter, and otherwise
      is an entry of the list that passes it, with none before it passing. */
  lemma {:induction false} FirstAcceptedSpec(cfg: ModConfig, s: seq<Salable>, id: TabId)
    requires id != NoFilter
    ensures var r := FirstAccepted(cfg, s, id);
            && (r.None? <==> forall i :: 0 <= i < |s| ==> !Accepts(cfg, id, s[i]))
            && (r.Some? ==> exists k :: 0 <= k < |s| && s[k] == r.value && Accepts(cfg, id, s[k])
                              && forall i :: 0 <= i < k ==> !Accepts(cfg, id, s[i]))
  {
    if s != [] && !Accepts(cfg, id, s[0]) {
      FirstAcceptedSpec(cfg, s[1..], id);
      assert forall i :: 0 < i < |s| ==> s[i] == s[1..][i - 1];
      var r := FirstAccepted(cfg, s, id);
      if r.Some? {
        var k :| 0 <= k < |s[1..]| && s[1..][k] == r.value && Accepts(cfg, id, s[1..][k])
                 && forall i :: 0 <= i < k ==> !Accepts(cfg, id, s[1..][i]);
        assert s[k + 1] == r.value;
        forall i | 0 <= i < k + 1 ensures !Accepts(cfg, id, s[i]) {
          if i > 0 {
            assert s[i] == s[1..][i - 1];
          }
        }
      }
    } else if s != [] {
      assert s[0] == FirstAccepted(cfg, s, id).value;
    }
  }

  /** `FirstOrDefault(filter) is Item`: the first accepted entry exists and is an Item. */
  predicate HasTabSource(cfg: ModConfig, s: seq<Salable>, id: TabId)
    requires id != NoFilter
  {
    var f := FirstAccepted(cfg, s, id);
    f.Some? && f.value.IsItem()
  }

  /** An entry that gets a category tab: an Item that is not a recipe. */
  predicate Categorized(e: Salable) {
    e.IsItem() && !e.isRecipe
  }

  /** The category keys in the order the category loop first sees them (the dictionary's key order). */
  function CategoryOrder(s: seq<Salable>): seq<TabId>
    decreases |s|
  {
    if s == [] then []
    else
      var prev := CategoryOrder(s[..|s| - 1]);
      var e := s[|s| - 1];
      if Categorized(e) && CategoryTab(e.category) !in prev then prev + [CategoryTab(e.category)] else prev
  }

  /** The outcome of the five fixed scans: whether each fixed tab has a source in the stock. */
  datatype Sources = Sources(plantable: bool, crop: bool, tree: bool, bush: bool, recipes: bool)

  function SourcesOf(cfg: ModConfig, fs: seq<Salable>): Sources {
    Sources(HasTabSource(cfg, fs, SeedsCropPlantable), HasTabSource(cfg, fs, SeedsCrop),
            HasTabSource(cfg, fs, SeedsTree), HasTabSource(cfg, fs, SeedsBush),
            HasTabSource(cfg, fs, Recipes))
  }

  /** The category keys the category loop registers: none when category tabs are off. */
  function CategoryKeys(cfg: ModConfig, fs: seq<Salable>): seq<TabId> {
    if cfg.enableTabCategory then CategoryOrder(fs) else []
  }

  // ---------------------------------------------------------------- the tab order

  /** List.Remove: drop the first occurrence, if any. */
  function RemoveFirst(s: seq<TabId>, x: TabId): (r: seq<TabId>)
    ensures x !in s ==> r == s
    ensures forall y :: y in r ==> y in s
    ensures forall y :: y in s && y != x ==> y in r
    ensures IsSubsequence(r, s)
    ensures x in s ==> |r| == |s| - 1
  {
    if s == [] then []
    else if s[0] == x then
      SubsequenceOfSelf(s[1..]);
      s[1..]
    else
      var rest := RemoveFirst(s[1..], x);
      assert ([s[0]] + rest)[1..] == rest;
      [s[0]] + rest
  }

  /** Without duplicates, List.Remove removes the value altogether and keeps the rest distinct. */
  lemma {:induction false} RemoveFirstNoDuplicates(s: seq<TabId>, x: TabId)
    requires NoDuplicates(s)
    ensures NoDuplicates(RemoveFirst(s, x)) && x !in RemoveFirst(s, x)
  {
    if s != [] && s[0] != x {
      var rest := RemoveFirst(s[1..], x);
      RemoveFirstNoDuplicates(s[1..], x);
      var r := [s[0]] + rest;
      assert s[0] !in s[1..];
      forall i, j | 0 <= i < j < |r| ensures r[i] != r[j] {
        if i == 0 {
          assert r[j] == rest[j - 1];
          assert r[j] in rest;
        } else {
          assert r[i] == rest[i - 1] && r[j] == rest[j - 1];
        }
      }
    } else if s != [] {
      assert s[0] !in s[1..];
      assert NoDuplicates(s[1..]) by {
        forall i, j | 0 <= i < j < |s[1..]| ensures s[1..][i] != s[1..][j] {
          assert s[1..][i] == s[i + 1] && s[1..][j] == s[j + 1];
        }
      }
    }
  }

  /** A fixed tab joins the order when its scan found a source. */
  function Opt(present: bool, id: TabId): seq<TabId> {
    if present then [id] else []
  }

  /** The category tabs, without the seeds category when the seeds are split. */
  function Cats(cfg: ModConfig, cats: seq<TabId>): seq<TabId> {
    if cfg.enableTabDetailedSeeds then RemoveFirst(cats, CategorySeeds) else cats
  }

  /** Crop, tree and bush, each present when it has a source, when the seeds are split. */
  function SeedTabs(cfg: ModConfig, src: Sources): seq<TabId> {
    if cfg.enableTabDetailedSeeds then Opt(src.crop, SeedsCrop) + (Opt(src.tree, SeedsTree) + Opt(src.bush, SeedsBush))
    else []
  }

  function PlantableTab(cfg: ModConfig, src: Sources): seq<TabId> {
    if cfg.enableTabPlantableSeeds then Opt(src.plantable, SeedsCropPlantable) else []
  }

  function RecipeTab(cfg: ModConfig, src: Sources): seq<TabId> {
    if cfg.enableTabRecipes then Opt(src.recipes, Recipes) else []
  }

  /** The tabs before the recipes tab: plantable, then the seed tabs, then the categories. The
      steps that prepend build this part from the back. */
  function Planted(cfg: ModConfig, src: Sources, cats: seq<TabId>): seq<TabId> {
    PlantableTab(cfg, src) + (SeedTabs(cfg, src) + Cats(cfg, cats))
  }

  /** The tabs before NO_FILTER is added; the recipes tab is appended last. */
  function RealTabs(cfg: ModConfig, src: Sources, cats: seq<TabId>): seq<TabId> {
    Planted(cfg, src, cats) + RecipeTab(cfg, src)
  }

  /** The tab order after construction: none when the host has its own tab buttons or fewer than two
      real tabs exist; otherwise NO_FILTER followed by the real tabs. */
  function RegistryOrder(cfg: ModConfig, fs: seq<Salable>, hostTabButtons: nat): seq<TabId> {
    if hostTabButtons > 0 then []
    else
      var r := RealTabs(cfg, SourcesOf(cfg, fs), CategoryKeys(cfg, fs));
      if |r| > 1 then [NoFilter] + r else []
  }

  // ---------------------------------------------------------------- the constructor's scan

  /** The category loop: one tab per category of a non-recipe Item, in first-seen order. The
      returned sequence is the dictionary's key insertion order. */
  method CategoryTabs(forSale: seq<Salable>) returns (filterTabs: map<TabId, Rect>, keys: seq<TabId>)
    ensures keys == CategoryOrder(forSale)
    ensures forall id :: id in filterTabs <==> id in keys
    ensures forall id :: id in filterTabs ==> filterTabs[id] == EmptyRect
  {
    filterTabs, keys := map[], [];
    var i := 0;
    while i < |forSale|
      invariant 0 <= i <= |forSale|
      invariant keys == CategoryOrder(forSale[..i])
      invariant forall id :: id in filterTabs <==> id in keys
      invariant forall id :: id in filterTabs ==> filterTabs[id] == EmptyRect
    {
      assert forSale[..i + 1][..i] == forSale[..i];
      var sale := forSale[i];
      if Categorized(sale) {
        var categoryKey := CategoryTab(sale.category);
        if categoryKey !in filterTabs {
          filterTabs := filterTabs[categoryKey := EmptyRect];
          keys := keys + [categoryKey];
        }
      }
      i := i + 1;
    }
    assert forSale[..|forSale|] == forSale;
  }

  /** The dictionary holds exactly the keys of the order list, each with empty bounds. */
  ghost predicate Keyed(filterTabs: map<TabId, Rect>, order: seq<TabId>) {
    && (forall id :: id in filterTabs <==> id in order)
    && forall id :: id in filterTabs ==> filterTabs[id] == EmptyRect
  }

  lemma KeyedAdd(filterTabs: map<TabId, Rect>, order: seq<TabId>, id: TabId)
    requires Keyed(filterTabs, order)
    ensures Keyed(filterTabs[id := EmptyRect], [id] + order)
    ensures Keyed(filterTabs[id := EmptyRect], order + [id])
  {
  }

  lemma KeyedRemove(filterTabs: map<TabId, Rect>, order: seq<TabId>, id: TabId)
    requires Keyed(filterTabs, order) && NoDuplicates(order) && id in filterTabs
    ensures Keyed(filterTabs - {id}, RemoveFirst(order, id))
  {
    RemoveFirstNoDuplicates(order, id);
  }

  lemma AppendAssoc(a: seq<TabId>, b: seq<TabId>, c: seq<TabId>, d: seq<TabId>)
    ensures a + (b + (c + d)) == (a + (b + c)) + d
  {
  }

  /** The detailed-seeds block: the seeds category tab goes, and bush, tree and crop tabs are
      put in front when their scans find a source. */
  method SplitSeedTabs(cfg: ModConfig, forSale: seq<Salable>, tabs: map<TabId, Rect>, order: seq<TabId>)
    returns (filterTabs: map<TabId, Rect>, filterTabsOrder: seq<TabId>)
    requires cfg.enableTabDetailedSeeds
    requires Keyed(tabs, order) && NoDuplicates(order)
    ensures Keyed(filterTabs, filterTabsOrder)
    ensures filterTabsOrder == SeedTabs(cfg, SourcesOf(cfg, forSale)) + Cats(cfg, order)
  {
    filterTabs, filterTabsOrder := tabs, order;
    if CategorySeeds in filterTabs {
      KeyedRemove(filterTabs, filterTabsOrder, CategorySeeds);
      filterTabs := filterTabs - {CategorySeeds};
      filterTabsOrder := RemoveFirst(filterTabsOrder, CategorySeeds);
    }
    ghost var c := filterTabsOrder;
    ghost var src := SourcesOf(cfg, forSale);
    if HasTabSource(cfg, forSale, SeedsBush) {
      KeyedAdd(filterTabs, filterTabsOrder, SeedsBush);
      filterTabs := filterTabs[SeedsBush := EmptyRect];
      filterTabsOrder := [SeedsBush] + filterTabsOrder;
    }
    assert filterTabsOrder == Opt(src.bush, SeedsBush) + c;
    if HasTabSource(cfg, forSale, SeedsTree) {
      KeyedAdd(filterTabs, filterTabsOrder, SeedsTree);
      filterTabs := filterTabs[SeedsTree := EmptyRect];
      filterTabsOrder := [SeedsTree] + filterTabsOrder;
    }
    assert filterTabsOrder == Opt(src.tree, SeedsTree) + (Opt(src.bush, SeedsBush) + c);
    if HasTabSource(cfg, forSale, SeedsCrop) {
      KeyedAdd(filterTabs, filterTabsOrder, SeedsCrop);
      filterTabs := filterTabs[SeedsCrop := EmptyRect];
      filterTabsOrder := [SeedsCrop] + filterTabsOrder;
    }
    AppendAssoc(Opt(src.crop, SeedsCrop), Opt(src.tree, SeedsTree), Opt(src.bush, SeedsBush), c);
  }

  /** The plantable tab goes in front and the recipes tab at the end, each when its option is on
      and its scan finds a source. */
  method AddFixedTabs(cfg: ModConfig, forSale: seq<Salable>, tabs: map<TabId, Rect>, order: seq<TabId>)
    returns (filterTabs: map<TabId, Rect>, filterTabsOrder: seq<TabId>)
    requires Keyed(tabs, order)
    ensures Keyed(filterTabs, filterTabsOrder)
    ensures filterTabsOrder == PlantableTab(cfg, SourcesOf(cfg, forSale)) + order + RecipeTab(cfg, SourcesOf(cfg, forSale))
  {
    ghost var src := SourcesOf(cfg, forSale);
    filterTabs, filterTabsOrder := tabs, order;
    if cfg.enableTabPlantableSeeds {
      if HasTabSource(cfg, forSale, SeedsCropPlantable) {
        KeyedAdd(filterTabs, filterTabsOrder, SeedsCropPlantable);
        filterTabs := filterTabs[SeedsCropPlantable := EmptyRect];
        filterTabsOrder := [SeedsCropPlantable] + filterTabsOrder;
      }
    }
    assert filterTabsOrder == PlantableTab(cfg, src) + order;
    if cfg.enableTabRecipes {
      if HasTabSource(cfg, forSale, Recipes) {
        KeyedAdd(filterTabs, filterTabsOrder, Recipes);
        filterTabs := filterTabs[Recipes := EmptyRect];
        filterTabsOrder := filterTabsOrder + [Recipes];
      }
    }
  }

  /** The registry part of the constructor: the category loop over the stock, the seed, plantable
      and recipe tabs, and the final NO_FILTER or clear. Tabs start with empty bounds. */
  method BuildTabRegistry(cfg: ModConfig, forSale: seq<Salable>, hostTabButtons: nat)
    returns (filterTabs: map<TabId, Rect>, filterTabsOrder: seq<TabId>)
    ensures filterTabsOrder == RegistryOrder(cfg, forSale, hostTabButtons)
    ensures forall id :: id in filterTabs <==> id in filterTabsOrder
    ensures forall id :: id in filterTabs ==> filterTabs[id] == EmptyRect
  {
    filterTabs, filterTabsOrder := map[], [];
    if hostTabButtons > 0 {
      return;
    }
    if cfg.enableTabCategory {
      filterTabs, filterTabsOrder := CategoryTabs(forSale);
    }
    CategoryOrderNoDuplicates(forSale);
    ghost var cats := filterTabsOrder;
    ghost var src := SourcesOf(cfg, forSale);
    assert cats == CategoryKeys(cfg, forSale);
    if cfg.enableTabDetailedSeeds {
      filterTabs, filterTabsOrder := SplitSeedTabs(cfg, forSale, filterTabs, filterTabsOrder);
    }
    ghost var seeded := filterTabsOrder;
    assert seeded == SeedTabs(cfg, src) + Cats(cfg, cats);
    filterTabs, filterTabsOrder := AddFixedTabs(cfg, forSale, filterTabs, filterTabsOrder);
    assert filterTabsOrder == RealTabs(cfg, src, cats);
    if |filterTabsOrder| > 1 {
      KeyedAdd(filterTabs, filterTabsOrder, NoFilter);
      filterTabsOrder := [NoFilter] + filterTabsOrder;
      filterTabs := filterTabs[NoFilter := EmptyRect];
    } else {
      filterTabsOrder := [];
      filterTabs := map[];
    }
  }

  // ---------------------------------------------------------------- properties of the registry

  /** A category tab exists for exactly the categories of the non-recipe Items in the stock. */
  lemma {:induction false} CategoryOrderMembership(s: seq<Salable>, id: TabId)
    ensures id in CategoryOrder(s) <==>
            id.CategoryTab? && exists k :: 0 <= k < |s| && Categorized(s[k]) && s[k].category == id.category
    decreases |s|
  {
    if s != [] {
      var init := s[..|s| - 1];
      CategoryOrderMembership(init, id);
      if id.CategoryTab? && exists k :: 0 <= k < |init| && Categorized(init[k]) && init[k].category == id.category {
        var k :| 0 <= k < |init| && Categorized(init[k]) && init[k].category == id.category;
        assert s[k] == init[k];
      }
      if id.CategoryTab? && exists k :: 0 <= k < |s| && Categorized(s[k]) && s[k].category == id.category {
        var k :| 0 <= k < |s| && Categorized(s[k]) && s[k].category == id.category;
        if k < |s| - 1 {
          assert init[k] == s[k];
        }
      }
    }
  }

  /** A well-formed list of category keys: category tabs only, each once. */
  predicate CategoryKeyList(cats: seq<TabId>) {
    NoDuplicates(cats) && forall i :: 0 <= i < |cats| ==> cats[i].CategoryTab?
  }

  lemma {:induction false} CategoryOrderNoDuplicates(s: seq<Salable>)
    ensures CategoryKeyList(CategoryOrder(s))
    decreases |s|
  {
    if s != [] {
      CategoryOrderNoDuplicates(s[..|s| - 1]);
    }
  }

  /** The rank of a tab in the order: NO_FILTER, plantable, crop, tree, bush, categories, recipes. */
  function Rank(id: TabId): nat {
    match id
    case NoFilter => 0
    case SeedsCropPlantable => 1
    case SeedsCrop => 2
    case SeedsTree => 3
    case SeedsBush => 4
    case CategoryTab(_) => 5
    case Recipes => 6
  }

  predicate RankSorted(s: seq<TabId>) {
    forall i, j :: 0 <= i < j < |s| ==> Rank(s[i]) <= Rank(s[j])
  }

  /** A sorted, duplicate-free part of the order whose ranks lie in `lo..hi`. */
  predicate RankedIn(s: seq<TabId>, lo: int, hi: int) {
    && RankSorted(s) && NoDuplicates(s)
    && forall i :: 0 <= i < |s| ==> lo <= Rank(s[i]) <= hi
  }

  /** Everything in a ranked part has a rank in its range. */
  lemma RankedMember(s: seq<TabId>, lo: int, hi: int, x: TabId)
    requires RankedIn(s, lo, hi) && x in s
    ensures lo <= Rank(x) <= hi
  {
  }

  /** Two ranked parts, the second ranked strictly above the first, join into one ranked part. */
  lemma JoinRanked(a: seq<TabId>, b: seq<TabId>, lo: int, mid: int, hi: int)
    requires lo <= mid < hi && RankedIn(a, lo, mid) && RankedIn(b, mid + 1, hi)
    ensures RankedIn(a + b, lo, hi)
  {
    var c := a + b;
    forall i, j | 0 <= i < j < |c| ensures Rank(c[i]) <= Rank(c[j]) && c[i] != c[j] {
      if j < |a| {
        assert c[i] == a[i] && c[j] == a[j];
      } else if i >= |a| {
        assert c[i] == b[i - |a|] && c[j] == b[j - |a|];
      } else {
        assert c[i] == a[i] && c[j] == b[j - |a|];
      }
    }
    forall i | 0 <= i < |c| ensures lo <= Rank(c[i]) <= hi {
      if i < |a| {
        assert c[i] == a[i];
      } else {
        assert c[i] == b[i - |a|];
      }
    }
  }

  lemma OptRanked(present: bool, id: TabId)
    ensures RankedIn(Opt(present, id), Rank(id), Rank(id))
  {
  }

  /** The category part has no duplicates, holds only category tabs and, when seeds are split,
      not the seeds category. */
  lemma CatsFacts(cfg: ModConfig, cats: seq<TabId>)
    requires CategoryKeyList(cats)
    ensures RankedIn(Cats(cfg, cats), 5, 5)
    ensures CategoryKeyList(Cats(cfg, cats))
    ensures cfg.enableTabDetailedSeeds ==> CategorySeeds !in Cats(cfg, cats)
    ensures forall id: TabId :: id.CategoryTab? ==>
              (id in Cats(cfg, cats) <==> id in cats && !(cfg.enableTabDetailedSeeds && id == CategorySeeds))
  {
    if cfg.enableTabDetailedSeeds {
      RemoveFirstNoDuplicates(cats, CategorySeeds);
    }
    var c := Cats(cfg, cats);
    assert forall i :: 0 <= i < |c| ==> c[i] in cats;
  }

  lemma SeedTabsRanked(cfg: ModConfig, src: Sources)
    ensures RankedIn(SeedTabs(cfg, src), 2, 4)
  {
    if cfg.enableTabDetailedSeeds {
      OptRanked(src.crop, SeedsCrop);
      OptRanked(src.tree, SeedsTree);
      OptRanked(src.bush, SeedsBush);
      JoinRanked(Opt(src.tree, SeedsTree), Opt(src.bush, SeedsBush), 3, 3, 4);
      JoinRanked(Opt(src.crop, SeedsCrop), Opt(src.tree, SeedsTree) + Opt(src.bush, SeedsBush), 2, 2, 4);
    }
  }

  /** The real tabs are free of duplicates and sorted by rank: plantable before crop before tree
      before bush, all of them before the categories, and recipes last. */
  lemma RealTabsSorted(cfg: ModConfig, src: Sources, cats: seq<TabId>)
    requires CategoryKeyList(cats)
    ensures RankedIn(RealTabs(cfg, src, cats), 1, 6)
    ensures NoFilter !in RealTabs(cfg, src, cats)
  {
    var p, sd, c, rc := PlantableTab(cfg, src), SeedTabs(cfg, src), Cats(cfg, cats), RecipeTab(cfg, src);
    OptRanked(src.plantable, SeedsCropPlantable);
    OptRanked(src.recipes, Recipes);
    assert RankedIn(p, 1, 1) && RankedIn(rc, 6, 6);
    SeedTabsRanked(cfg, src);
    CatsFacts(cfg, cats);
    JoinRanked(sd, c, 2, 4, 5);
    JoinRanked(p, sd + c, 1, 1, 5);
    JoinRanked(Planted(cfg, src, cats), rc, 1, 5, 6);
    if NoFilter in RealTabs(cfg, src, cats) {
      RankedMember(RealTabs(cfg, src, cats), 1, 6, NoFilter);
    }
  }

  lemma CategoryKeysFacts(cfg: ModConfig, fs: seq<Salable>)
    ensures CategoryKeyList(CategoryKeys(cfg, fs))
  {
    CategoryOrderNoDuplicates(fs);
  }

  /** The tab order is empty, or NO_FILTER followed by at least two real tabs; it has no duplicates
      and is sorted by rank. With host tab buttons it is empty. */
  lemma RegistryShape(cfg: ModConfig, fs: seq<Salable>, hostTabButtons: nat)
    ensures var r := RegistryOrder(cfg, fs, hostTabButtons);
            && (r == [] || (r[0] == NoFilter && |r| >= 3))
            && (hostTabButtons > 0 ==> r == [])
            && NoDuplicates(r) && RankSorted(r)
  {
    CategoryKeysFacts(cfg, fs);
    var realTabs := RealTabs(cfg, SourcesOf(cfg, fs), CategoryKeys(cfg, fs));
    RealTabsSorted(cfg, SourcesOf(cfg, fs), CategoryKeys(cfg, fs));
    JoinRanked([NoFilter], realTabs, 0, 0, 6);
  }

  /** A tab other than a category tab is among the real tabs exactly when it is in one of the
      fixed parts. */
  lemma FixedParts(cfg: ModConfig, src: Sources, cats: seq<TabId>, x: TabId)
    requires CategoryKeyList(cats) && !x.CategoryTab?
    ensures x in RealTabs(cfg, src, cats) <==>
            x in PlantableTab(cfg, src) || x in SeedTabs(cfg, src) || x in RecipeTab(cfg, src)
  {
    CatsFacts(cfg, cats);
    NotInCategoryList(Cats(cfg, cats), x);
  }

  /** Which fixed tabs are among the real tabs: each one exactly when its option is on and its scan
      found a source (crop, tree and bush under the detailed-seeds option). */
  lemma FixedTabMembership(cfg: ModConfig, src: Sources, cats: seq<TabId>)
    requires CategoryKeyList(cats)
    ensures var r := RealTabs(cfg, src, cats);
            && (SeedsCropPlantable in r <==> cfg.enableTabPlantableSeeds && src.plantable)
            && (SeedsCrop in r <==> cfg.enableTabDetailedSeeds && src.crop)
            && (SeedsTree in r <==> cfg.enableTabDetailedSeeds && src.tree)
            && (SeedsBush in r <==> cfg.enableTabDetailedSeeds && src.bush)
            && (Recipes in r <==> cfg.enableTabRecipes && src.recipes)
  {
    FixedParts(cfg, src, cats, SeedsCropPlantable);
    FixedParts(cfg, src, cats, SeedsCrop);
    FixedParts(cfg, src, cats, SeedsTree);
    FixedParts(cfg, src, cats, SeedsBush);
    FixedParts(cfg, src, cats, Recipes);
  }

  lemma NotInCategoryList(c: seq<TabId>, x: TabId)
    requires CategoryKeyList(c) && !x.CategoryTab?
    ensures x !in c
  {
  }

  /** A category tab is among the real tabs exactly when it is in the category keys, except the
      seeds category under the detailed-seeds option. */
  lemma CategoryTabMembership(cfg: ModConfig, src: Sources, cats: seq<TabId>, id: TabId)
    requires CategoryKeyList(cats) && id.CategoryTab?
    ensures id in RealTabs(cfg, src, cats) <==> id in cats && !(cfg.enableTabDetailedSeeds && id == CategorySeeds)
  {
    CatsFacts(cfg, cats);
  }

  /** The seed filters accept only objects, so their tab has a source exactly when some entry passes. */
  lemma SourceIsFirstMatch(cfg: ModConfig, fs: seq<Salable>, id: TabId)
    requires id in {SeedsCropPlantable, SeedsCrop, SeedsTree, SeedsBush}
    ensures HasTabSource(cfg, fs, id) <==> exists i :: 0 <= i < |fs| && Accepts(cfg, id, fs[i])
  {
    FirstAcceptedSpec(cfg, fs, id);
  }

  /** The fixed tabs of NO_FILTER followed by the real tabs, by option and scan result. */
  lemma FixedTabsOfRegistry(cfg: ModConfig, src: Sources, cats: seq<TabId>)
    requires CategoryKeyList(cats)
    ensures var r := [NoFilter] + RealTabs(cfg, src, cats);
            && (SeedsCropPlantable in r <==> cfg.enableTabPlantableSeeds && src.plantable)
            && (SeedsCrop in r <==> cfg.enableTabDetailedSeeds && src.crop)
            && (SeedsTree in r <==> cfg.enableTabDetailedSeeds && src.tree)
            && (SeedsBush in r <==> cfg.enableTabDetailedSeeds && src.bush)
            && (Recipes in r <==> cfg.enableTabRecipes && src.recipes)
  {
    FixedTabMembership(cfg, src, cats);
  }

  /** A non-empty registry has each fixed tab exactly when its option is on and its scan found an Item. */
  lemma RegistrySourcedTabs(cfg: ModConfig, fs: seq<Salable>, hostTabButtons: nat)
    requires RegistryOrder(cfg, fs, hostTabButtons) != []
    ensures var r := RegistryOrder(cfg, fs, hostTabButtons);
            && (SeedsCropPlantable in r <==> cfg.enableTabPlantableSeeds && HasTabSource(cfg, fs, SeedsCropPlantable))
            && (SeedsCrop in r <==> cfg.enableTabDetailedSeeds && HasTabSource(cfg, fs, SeedsCrop))
            && (SeedsTree in r <==> cfg.enableTabDetailedSeeds && HasTabSource(cfg, fs, SeedsTree))
            && (SeedsBush in r <==> cfg.enableTabDetailedSeeds && HasTabSource(cfg, fs, SeedsBush))
            && (Recipes in r <==> cfg.enableTabRecipes && HasTabSource(cfg, fs, Recipes))
  {
    var src, cats := SourcesOf(cfg, fs), CategoryKeys(cfg, fs);
    NonEmptyRegistry(cfg, fs, hostTabButtons);
    CategoryKeysFacts(cfg, fs);
    FixedTabsOfRegistry(cfg, src, cats);
  }

  /** A non-empty registry has the seed tabs exactly when their option is on and some entry matches
      their filter, and the recipes tab exactly when its option is on and the first recipe is an Item. */
  lemma RegistryTabs(cfg: ModConfig, fs: seq<Salable>, hostTabButtons: nat)
    requires RegistryOrder(cfg, fs, hostTabButtons) != []
    ensures var r := RegistryOrder(cfg, fs, hostTabButtons);
            && (SeedsCropPlantable in r <==>
                  cfg.enableTabPlantableSeeds && exists i :: 0 <= i < |fs| && FilterSeedCropPlantable(cfg, fs[i]))
            && (SeedsCrop in r <==>
                  cfg.enableTabDetailedSeeds && exists i :: 0 <= i < |fs| && FilterSeedCrop(cfg, fs[i]))
            && (SeedsTree in r <==>
                  cfg.enableTabDetailedSeeds && exists i :: 0 <= i < |fs| && FilterSeedTree(cfg, fs[i]))
            && (SeedsBush in r <==>
                  cfg.enableTabDetailedSeeds && exists i :: 0 <= i < |fs| && FilterSeedBush(cfg, fs[i]))
            && (Recipes in r <==> cfg.enableTabRecipes && HasTabSource(cfg, fs, Recipes))
  {
    RegistrySourcedTabs(cfg, fs, hostTabButtons);
    SourceIsFirstMatch(cfg, fs, SeedsCropPlantable);
    SourceIsFirstMatch(cfg, fs, SeedsCrop);
    SourceIsFirstMatch(cfg, fs, SeedsTree);
    SourceIsFirstMatch(cfg, fs, SeedsBush);
  }

  /** A non-empty registry has a category tab exactly for the categories of the non-recipe Items,
      when category tabs are on, except the seeds category when the seeds are split. */
  lemma RegistryCategoryTabs(cfg: ModConfig, fs: seq<Salable>, hostTabButtons: nat, category: int)
    requires RegistryOrder(cfg, fs, hostTabButtons) != []
    ensures CategoryTab(category) in RegistryOrder(cfg, fs, hostTabButtons) <==>
            && cfg.enableTabCategory
            && (exists k :: 0 <= k < |fs| && Categorized(fs[k]) && fs[k].category == category)
            && !(cfg.enableTabDetailedSeeds && category == SeedsCategory)
  {
    var src, cats := SourcesOf(cfg, fs), CategoryKeys(cfg, fs);
    NonEmptyRegistry(cfg, fs, hostTabButtons);
    CategoryKeysFacts(cfg, fs);
    CategoryTabMembership(cfg, src, cats, CategoryTab(category));
    CategoryOrderMembership(fs, CategoryTab(category));
  }

  lemma LastOfJoin(h: seq<TabId>, t: seq<TabId>, x: TabId)
    requires x !in h && (t == [] || t == [x])
    ensures x in h + t ==> t == [x] && (h + t)[|h + t| - 1] == x
  {
  }

  /** Nothing before the recipes part ranks as high as the recipes tab. */
  lemma RecipesNotPlanted(cfg: ModConfig, src: Sources, cats: seq<TabId>)
    requires CategoryKeyList(cats)
    ensures Recipes !in [NoFilter] + Planted(cfg, src, cats)
  {
    var p := Planted(cfg, src, cats);
    OptRanked(src.plantable, SeedsCropPlantable);
    SeedTabsRanked(cfg, src);
    CatsFacts(cfg, cats);
    JoinRanked(SeedTabs(cfg, src), Cats(cfg, cats), 2, 4, 5);
    JoinRanked(PlantableTab(cfg, src), SeedTabs(cfg, src) + Cats(cfg, cats), 1, 1, 5);
    JoinRanked([NoFilter], p, 0, 0, 5);
    if Recipes in [NoFilter] + p {
      RankedMember([NoFilter] + p, 0, 5, Recipes);
    }
  }

  /** The recipes tab, when present, is the last tab. */
  lemma RecipesTabLast(cfg: ModConfig, fs: seq<Salable>, hostTabButtons: nat)
    ensures var r := RegistryOrder(cfg, fs, hostTabButtons);
            Recipes in r ==> r[|r| - 1] == Recipes
  {
    var src, cats := SourcesOf(cfg, fs), CategoryKeys(cfg, fs);
    CategoryKeysFacts(cfg, fs);
    RecipesNotPlanted(cfg, src, cats);
    OptRanked(src.recipes, Recipes);
    LastOfJoin([NoFilter] + Planted(cfg, src, cats), RecipeTab(cfg, src), Recipes);
  }

  predicate IsCategoryTab(id: TabId) {
    id.CategoryTab?
  }

  /** Fixed tabs followed by category keys: keeping the category tabs keeps exactly the keys. */
  lemma CategoriesAfterFixed(fixed: seq<TabId>, c: seq<TabId>)
    requires RankedIn(fixed, 0, 4) && CategoryKeyList(c)
    ensures Filter(fixed + c, IsCategoryTab) == c
  {
    assert forall i :: 0 <= i < |fixed| ==> !IsCategoryTab(fixed[i]);
    FilterNoneOf(fixed, IsCategoryTab);
    FilterKeepsAll(c, IsCategoryTab);
    FilterAppend(fixed, c, IsCategoryTab);
  }

  lemma CategoryTabsOfPlanted(cfg: ModConfig, src: Sources, cats: seq<TabId>)
    requires CategoryKeyList(cats)
    ensures Filter(Planted(cfg, src, cats), IsCategoryTab) == Cats(cfg, cats)
  {
    var p, sd, c := PlantableTab(cfg, src), SeedTabs(cfg, src), Cats(cfg, cats);
    assert Planted(cfg, src, cats) == (p + sd) + c;
    CatsFacts(cfg, cats);
    OptRanked(src.plantable, SeedsCropPlantable);
    SeedTabsRanked(cfg, src);
    JoinRanked(p, sd, 1, 1, 4);
    CategoriesAfterFixed(p + sd, c);
  }

  /** The category tabs of the real tabs are the category keys in first-seen order, without the seeds
      category when seeds are split. */
  lemma CategoryTabsInOrder(cfg: ModConfig, src: Sources, cats: seq<TabId>)
    requires CategoryKeyList(cats)
    ensures Filter(RealTabs(cfg, src, cats), IsCategoryTab) == Cats(cfg, cats)
  {
    var rc := RecipeTab(cfg, src);
    CategoryTabsOfPlanted(cfg, src, cats);
    OptRanked(src.recipes, Recipes);
    FilterNoneOf(rc, IsCategoryTab);
    FilterAppend(Planted(cfg, src, cats), rc, IsCategoryTab);
  }

  /** The category tabs of a non-empty registry are the categories in the order the stock first
      shows them, without the seeds category when seeds are split. */
  lemma CategoryTabsInFirstSeenOrder(cfg: ModConfig, fs: seq<Salable>, hostTabButtons: nat)
    requires RegistryOrder(cfg, fs, hostTabButtons) != []
    ensures Filter(RegistryOrder(cfg, fs, hostTabButtons), IsCategoryTab) == Cats(cfg, CategoryKeys(cfg, fs))
  {
    var src, cats := SourcesOf(cfg, fs), CategoryKeys(cfg, fs);
    var tabs := RealTabs(cfg, src, cats);
    NonEmptyRegistry(cfg, fs, hostTabButtons);
    CategoryKeysFacts(cfg, fs);
    CategoryTabsInOrder(cfg, src, cats);
    FilterPastNoFilter(tabs);
  }

  /** A non-empty tab order is NO_FILTER followed by the real tabs. */
  lemma NonEmptyRegistry(cfg: ModConfig, fs: seq<Salable>, hostTabButtons: nat)
    requires RegistryOrder(cfg, fs, hostTabButtons) != []
    ensures RegistryOrder(cfg, fs, hostTabButtons) == [NoFilter] + RealTabs(cfg, SourcesOf(cfg, fs), CategoryKeys(cfg, fs))
  {
  }

  lemma FilterPastNoFilter(rest: seq<TabId>)
    ensures Filter([NoFilter] + rest, IsCategoryTab) == Filter(rest, IsCategoryTab)
  {
    FilterNoneOf([NoFilter], IsCategoryTab);
    FilterAppend([NoFilter], rest, IsCategoryTab);
  }
}
