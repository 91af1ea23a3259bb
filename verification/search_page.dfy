/** The map search screen (app/search/page.tsx): its own filter/sort memo,
    which adds a favourites-only switch and a category chip to the shared
    filter store but ignores the parking flag, and its page-level state. */
module SearchPage {
  import opened Types
  import Seqs
  import opened StoreOrder
  import opened StoreList
  import opened FavoriteStore
  import BottomSheet

  /** `if (selectedCategory)`: a chip is active when one is selected and its
      label is not the empty string. */
  predicate CategoryActive(category: Option<string>) {
    category.Some? && category.value != ""
  }

  /** The filter callback of lines 28-59, early returns in order. */
  predicate SearchKeep(st: Store, f: FilterState, favorites: FavoriteSet, favoritesOnly: bool, category: Option<string>) {
    if f.pickupDate == Today && !st.pickupAvailable.today then false
    else if f.pickupDate == Tomorrow && !st.pickupAvailable.tomorrow then false
    else if f.quickPickup && !st.quickPickup then false
    else if favoritesOnly && !IsFavorite(favorites, st.id) then false
    else if f.searchQuery != "" && !MatchesText(st, f.searchQuery) then false
    else if CategoryActive(category) && !MatchesText(st, category.value) then false
    else true
  }

  function SearchKeeper(f: FilterState, favorites: FavoriteSet, favoritesOnly: bool, category: Option<string>): Store -> bool {
    st => SearchKeep(st, f, favorites, favoritesOnly, category)
  }

  /** `filteredStores`: the stores that pass the page's predicates, each with
      its multiplicity in the input, stable-sorted by the selected key with the
      same comparator as the home list. */
  function FilteredStores(stores: seq<Store>, f: FilterState, favorites: FavoriteSet, favoritesOnly: bool, category: Option<string>): (r: seq<Store>)
    ensures forall st :: multiset(r)[st] ==
              if SearchKeep(st, f, favorites, favoritesOnly, category) then multiset(stores)[st] else 0
    ensures forall i :: 0 <= i < |r| ==>
              && PickupDateOk(r[i], f.pickupDate)
              && QuickPickupOk(r[i], f.quickPickup)
              && (favoritesOnly ==> IsFavorite(favorites, r[i].id))
              && QueryOk(r[i], f.searchQuery)
              && (CategoryActive(category) ==> MatchesText(r[i], category.value))
    ensures SortedBy(r, f.sortBy)
    ensures forall k :: WithKey(r, f.sortBy, k)
                        == WithKey(Seqs.Filter(stores, SearchKeeper(f, favorites, favoritesOnly, category)), f.sortBy, k)
  {
    var p := SearchKeeper(f, favorites, favoritesOnly, category);
    var kept := Seqs.Filter(stores, p);
    var r := SortStores(kept, f.sortBy);
    Seqs.FilterMultiset(stores, p);
    SortIsStableAll(kept, f.sortBy);
    Seqs.AllPassPermuted(kept, r, p);
    r
  }

  /** The parking switch of the filter store has no effect on this screen. */
  lemma ParkingIgnored(stores: seq<Store>, f: FilterState, parking: bool, favorites: FavoriteSet, favoritesOnly: bool, category: Option<string>)
    ensures FilteredStores(stores, f.(parkingAvailable := parking), favorites, favoritesOnly, category)
            == FilteredStores(stores, f, favorites, favoritesOnly, category)
  {
    Seqs.FilterCongruent(stores, SearchKeeper(f.(parkingAvailable := parking), favorites, favoritesOnly, category),
                         SearchKeeper(f, favorites, favoritesOnly, category));
  }

  /** Without the favourites switch and without an active chip, the screen
      lists exactly what the home list would list with parking switched off. */
  lemma SameAsHome(stores: seq<Store>, f: FilterState, favorites: FavoriteSet, category: Option<string>)
    requires !CategoryActive(category)
    ensures FilteredStores(stores, f, favorites, false, category)
            == FilteredAndSorted(stores, f.(parkingAvailable := false))
  {
    Seqs.FilterCongruent(stores, SearchKeeper(f, favorites, false, category),
                         HomeKeeper(f.(parkingAvailable := false)));
  }

  /** The page's own state. */
  datatype PageState = PageState(
    inputMode: bool,
    favoritesOnly: bool,
    sheet: BottomSheet.Position,
    category: Option<string>)

  /** The initial `useState` values: the sheet starts half open, nothing
      selected, no overlay. */
  function Initial(): (s: PageState)
    ensures s.sheet == BottomSheet.Half && !s.favoritesOnly && !s.inputMode && s.category == None
  {
    PageState(false, false, BottomSheet.Half, None)
  }

  /** A chip's `onClick`: selecting the selected chip clears it, any other
      chip replaces the selection. */
  function ToggleCategory(s: PageState, chip: string): (r: PageState)
    ensures r.category == Some(chip) <==> s.category != Some(chip)
    ensures s.category != Some(chip) ==> r.category == Some(chip)
    ensures s.category == Some(chip) ==> r.category == None
    ensures r.(category := s.category) == s
  {
    s.(category := if s.category == Some(chip) then None else Some(chip))
  }

  /** Pressing the same chip twice restores the selection. */
  lemma ToggleCategoryTwice(s: PageState, chip: string)
    ensures ToggleCategory(ToggleCategory(s, chip), chip) == s
            <==> s.category == None || s.category == Some(chip)
  {
  }

  /** The map's favourites button. */
  function ToggleFavoritesOnly(s: PageState): (r: PageState)
    ensures r.favoritesOnly != s.favoritesOnly
    ensures r.(favoritesOnly := s.favoritesOnly) == s
  {
    s.(favoritesOnly := !s.favoritesOnly)
  }

  /** `hasFavorites = favorites.size > 0`. */
  function HasFavorites(favorites: FavoriteSet): (b: bool)
    ensures b <==> exists id :: IsFavorite(favorites, id)
  {
    assert Size(favorites) > 0 ==> IsFavorite(favorites, favorites.order[0]);
    Size(favorites) > 0
  }

  /** With the favourites switch on and no favourites, nothing is listed and
      the sheet shows the empty-favourites message rather than the
      no-results one. */
  lemma NoFavoritesNoStores(stores: seq<Store>, f: FilterState, favorites: FavoriteSet, category: Option<string>, p: BottomSheet.Position)
    requires !HasFavorites(favorites) && p != BottomSheet.Collapsed
    ensures FilteredStores(stores, f, favorites, true, category) == []
    ensures BottomSheet.Body(p, FilteredStores(stores, f, favorites, true, category), true, HasFavorites(favorites))
            == BottomSheet.NoFavorites
  {
    var r := FilteredStores(stores, f, favorites, true, category);
    assert |r| > 0 ==> IsFavorite(favorites, r[0].id);
  }
}
