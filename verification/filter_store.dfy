/** The filter configuration store (store/useFilterStore.ts): its initial
    state and setters, each a transition on `FilterState`. */
module FilterStore {
  import opened Types

  const InitialLocation: string := "서울 강남구"

  /** `initialState`. */
  function Initial(): (f: FilterState)
    ensures f.pickupDate == Today && !f.quickPickup && !f.parkingAvailable
    ensures f.sortBy == Distance && f.searchQuery == "" && f.location == InitialLocation
  {
    FilterState(Today, false, false, Distance, "", InitialLocation)
  }

  /** `setPickupDate(date)`: choosing tomorrow switches quick pickup off;
      choosing today leaves it alone. Nothing else changes. */
  function SetPickupDate(f: FilterState, d: PickupDate): (r: FilterState)
    ensures r.pickupDate == d
    ensures d == Tomorrow ==> !r.quickPickup
    ensures d == Today ==> r.quickPickup == f.quickPickup
    ensures r.(pickupDate := f.pickupDate, quickPickup := f.quickPickup) == f
  {
    f.(pickupDate := d, quickPickup := if d == Tomorrow then false else f.quickPickup)
  }

  /** `setQuickPickup(enabled)`: it does not look at the pickup date. */
  function SetQuickPickup(f: FilterState, enabled: bool): (r: FilterState)
    ensures r.quickPickup == enabled
    ensures r.(quickPickup := f.quickPickup) == f
  {
    f.(quickPickup := enabled)
  }

  function SetParkingAvailable(f: FilterState, enabled: bool): (r: FilterState)
    ensures r.parkingAvailable == enabled
    ensures r.(parkingAvailable := f.parkingAvailable) == f
  {
    f.(parkingAvailable := enabled)
  }

  function SetSortBy(f: FilterState, option: SortOption): (r: FilterState)
    ensures r.sortBy == option
    ensures r.(sortBy := f.sortBy) == f
  {
    f.(sortBy := option)
  }

  function SetSearchQuery(f: FilterState, query: string): (r: FilterState)
    ensures r.searchQuery == query
    ensures r.(searchQuery := f.searchQuery) == f
  {
    f.(searchQuery := query)
  }

  function SetLocation(f: FilterState, location: string): (r: FilterState)
    ensures r.location == location
    ensures r.(location := f.location) == f
  {
    f.(location := location)
  }

  /** `resetFilters()`: only the quick-pickup, parking and sort fields go
      back to their initial values; the pickup date, the query and the
      location are kept. */
  function ResetFilters(f: FilterState): (r: FilterState)
    ensures r.quickPickup == Initial().quickPickup
    ensures r.parkingAvailable == Initial().parkingAvailable
    ensures r.sortBy == Initial().sortBy
    ensures r.pickupDate == f.pickupDate && r.searchQuery == f.searchQuery && r.location == f.location
  {
    f.(quickPickup := false, parkingAvailable := false, sortBy := Distance)
  }

  /** "Tomorrow implies no quick pickup" holds right after `setPickupDate`
      but is not an invariant of the store: `setQuickPickup(true)` afterwards
      turns quick pickup on again while tomorrow stays selected. */
  lemma TomorrowQuickPickupReachable()
    ensures var f := SetQuickPickup(SetPickupDate(Initial(), Tomorrow), true);
            f.pickupDate == Tomorrow && f.quickPickup
  {
  }

  /** Resetting twice is resetting once, and a reset undoes any sequence of
      quick-pickup, parking and sort changes. */
  lemma ResetFiltersIdempotent(f: FilterState, quick: bool, parking: bool, option: SortOption)
    ensures ResetFilters(ResetFilters(f)) == ResetFilters(f)
    ensures ResetFilters(SetSortBy(SetParkingAvailable(SetQuickPickup(f, quick), parking), option))
            == ResetFilters(f)
  {
  }

  /** Setting the pickup date is idempotent. */
  lemma SetPickupDateIdempotent(f: FilterState, d: PickupDate)
    ensures SetPickupDate(SetPickupDate(f, d), d) == SetPickupDate(f, d)
  {
  }
}
