# Pickup app discovery logic, in Dafny

A Dafny model of the decision logic of a discount food-pickup web app:
a client-only Next.js app where users browse stores that sell left-over food at
a discount and reserve a pickup slot. It covers:

- **The home store list** (`StoreList`).
  - It filters stores by pickup day, quick pickup, parking and a case-insensitive
    text query.
  - It sorts by one of six keys: distance; review, favourite or notification
    count; lowest price; highest price.
  - It places one event banner after every third store while events last.
- **The map search screen** (`SearchPage`). Its own copy of the filter/sort adds
  a favourites-only switch and a category chip, and drops the parking flag. It
  also holds the page state: the category chip, the favourites switch and the
  initial sheet position.
- **The draggable bottom sheet of that screen** (`BottomSheet`). It has three
  resting positions and a drag threshold of 80 pixels. A tap on the collapsed
  handle opens it half way.
- **The search overlay** (`SearchInputView`).
  - It groups results into three buckets: areas with store counts, stores by
    name, and menu items.
  - It also models the submit and clear handlers.
- **The store card's derived values** (`StoreCard`): the cheapest item, the
  distance text, the availability badge, the day label and the menu tag line.
- **The address modal** (`LocationModal`): the main, search and map views, and
  registration of the home and work addresses.
- **The client state stores:**
  - filter configuration (`FilterStore`);
  - recent searches (`SearchHistoryStore`);
  - favourites, with their conversion to and from an array (`FavoriteStore`);
  - saved addresses (`SavedLocationStore`).

Shared pieces:

- `Types` holds the records.
- `Text` holds the string primitives the components call: ASCII `toLowerCase`,
  `includes`, `trim`, and the decimal rendering of integers.
- `Seqs` holds `filter`, `slice(0, n)` and the order-preserving de-duplication
  that an insertion-ordered JS `Set` or `Map` performs.
- `StoreOrder` holds the comparator and the stable sort shared by both store
  pipelines.

Every operation is a pure function on immutable values. React state updates
become functions from the old state to the new one. The browser, the map SDK,
timers and storage are outside the model.

The engine's sort is stable. The comparator is a subtraction of JS numbers.

- `StoreOrder.Key` gives each store a sort key.
- `StoreOrder.ComparatorAgreesWithKey` proves that the key order is exactly the
  sign the engine takes of the comparator.
- `StoreOrder.SortStores` is an insertion sort. It is proved to give a sorted
  permutation of its input that keeps the input order among equal keys.
  `StoreOrder.SortUnique` proves that only one sequence has those properties,
  so any stable sort under this comparator gives the same result.

Behaviour of the code that the model follows:

- **Price sorts over a store without menu items.** `Math.min()` and
  `Math.max()` of no prices give +Infinity and −Infinity. A comparison against
  a finite price is then ±Infinity. Two such stores compare as
  Infinity − Infinity = NaN, which the engine's sort treats as 0. So stores
  without items come after all the others, in input order. The model gives
  them the key `SortKey.PastEnd` and needs no precondition.
- **End of a drag.** Only `mouseup` and `touchend` end a drag; there is no
  leave handler. The model has no leave event.
- **Event position.** Store indices are 0-based. An event follows the store at
  index k when (k + 1) % 3 == 0 and events remain.

## Model

| member | source | states |
|---|---|---|
| `Seqs.Dedup` | store/useFavoriteStore.ts:39 | `new Set(array)` keeps one copy of every value, and exactly the values of the array |
| `Seqs.DedupFirstSeen` | store/useFavoriteStore.ts:39 | `new Set(array)` lists the values in the order of their first occurrences in the array |
| `Text.Trim` | store/useSearchHistoryStore.ts:24 | `trim()` returns a slice of the input with only whitespace around it, and neither end of it is whitespace |
| `Text.TrimEmptyIffBlank` | store/useSearchHistoryStore.ts:25 | a string trims to nothing exactly when every character is whitespace, the falsy case of the guard |
| `Text.TrimIdempotent` | store/useSearchHistoryStore.ts:24 | trimming twice is trimming once |
| `Text.IncludesIffOccurs` | components/home/StoreList.tsx:34 | the scanning `includes` holds exactly when the needle occurs at some position |
| `Text.Lower` | components/home/StoreList.tsx:33-36 | `toLowerCase` keeps the length, maps each upper-case ASCII letter to its lower-case letter and leaves every other character alone |
| `Text.IntDecimalRoundTrip` | components/home/StoreCard.tsx:19 | the text of an integer in a template literal has no superfluous leading zero and no "-0", and reads back as that integer |
| `Text.CanonicalDecimalUnique` | components/home/StoreCard.tsx:19 | a text in that form that reads back as n is exactly the template-literal text of n, so the text is determined by the number |
| `StoreOrder.MinSale` | components/home/StoreList.tsx:56-57 | the smallest sale price is attained by an item and bounds every item from below |
| `StoreOrder.MaxSale` | components/home/StoreList.tsx:61-62 | the largest sale price is attained by an item and bounds every item from above |
| `StoreOrder.KeyLeTotalPreorder` | components/home/StoreList.tsx:45-68 | the key order is reflexive, total, transitive and antisymmetric, so the comparator is consistent |
| `StoreOrder.ComparatorAgreesWithKey` | components/home/StoreList.tsx:45-68 | the comparator's sign (NaN as 0) is ≤ 0 exactly when the keys are in order, and 0 exactly when they are equal |
| `StoreOrder.SortStores` | components/home/StoreList.tsx:45 | the sort returns a permutation of its input in which every pair is in key order |
| `StoreOrder.SortIsStable` | components/home/StoreList.tsx:45 | stores with equal keys keep their input order |
| `StoreOrder.SortSorted` | components/home/StoreList.tsx:45 | sorting an already sorted list changes nothing |
| `StoreOrder.SortedUnique` | components/home/StoreList.tsx:45 | two key-sorted lists that list the stores of every key in the same order are equal |
| `StoreOrder.SortUnique` | components/home/StoreList.tsx:45 | any key-sorted list that keeps every key's stores in input order is the sort's result, so every stable sort with this comparator agrees with it |
| `StoreOrder.SortedFieldOrder` | components/home/StoreList.tsx:46-64 | in a sorted list: distance ascends; review, favourite and notification counts descend; lowest price ascends and highest price descends, with stores that have no items last |
| `StoreList.HomeKeepIsConjunction` | components/home/StoreList.tsx:19-42 | the early-return filter keeps a store exactly when it passes the pickup-day, quick-pickup, parking and query predicates |
| `StoreList.FilteredAndSorted` | components/home/StoreList.tsx:18-71 | each kept store appears as often as in the input and every rejected one is absent; every result passes every active predicate; the result is sorted and stable relative to the filtered order |
| `StoreList.FilteredAndSortedIdempotent` | components/home/StoreList.tsx:18-71 | running the pipeline on its own output changes nothing |
| `StoreList.BlockProjections` | components/home/StoreList.tsx:88-95 | one loop step pushes its store, then at most the next event |
| `StoreList.InterleaveProjections` | components/home/StoreList.tsx:82-96 | removing the events gives the sorted stores back; the events are the first min(events, stores / 3) in order; the length is their sum |
| `StoreList.InterleaveEvents` | components/home/StoreList.tsx:83-96 | the `forEach` loop with its running event index builds that interleaving |
| `StoreList.InterleavePrefix` | components/home/StoreList.tsx:87-96 | the list built for the first stores is a prefix of the full list |
| `StoreList.EventFollowsStore` | components/home/StoreList.tsx:87-96 | the store at index k sits at k + min(events, k / 3), and an event follows it exactly when (k + 1) % 3 == 0 and an event is left |
| `StoreList.NextIsStore` | components/home/StoreList.tsx:89-93 | when no event follows a store, the next entry is the next store |
| `StoreList.RenderHomeList` | components/home/StoreList.tsx:73-96 | the empty state shows exactly when no store passes the filter; otherwise the items are the interleaving of the pipeline's output with the events, one event after every third store while events remain |
| `SearchPage.FilteredStores` | app/search/page.tsx:27-88 | multiplicities, predicates (pickup day, quick pickup, favourites, query, category), sortedness and stability, as for the home list |
| `SearchPage.ParkingIgnored` | app/search/page.tsx:21-59 | the result does not depend on the parking flag |
| `SearchPage.SameAsHome` | app/search/page.tsx:27-88 | with neither the favourites switch nor a chip on, the screen lists what the home list lists with parking off |
| `SearchPage.NoFavoritesNoStores` | app/search/page.tsx:38-90 | with the switch on and no favourites, nothing is listed and the sheet shows the empty-favourites message |
| `SearchPage.Initial` | app/search/page.tsx:16-19 | the sheet starts half open, with no chip, no favourites switch and no overlay |
| `SearchPage.ToggleCategory` | app/search/page.tsx:108 | pressing the selected chip clears it, and pressing any other chip selects it; nothing else changes |
| `SearchPage.ToggleCategoryTwice` | app/search/page.tsx:108 | pressing a chip twice restores the selection exactly when no chip or that chip was selected |
| `SearchPage.ToggleFavoritesOnly` | app/search/page.tsx:127 | the map button flips the switch and nothing else |
| `SearchPage.HasFavorites` | app/search/page.tsx:90 | holds exactly when some id is a favourite |
| `BottomSheet.SettleIsClampedStep` | components/search/BottomSheet.tsx:48-69 | the transition table moves the openness rank one step in the drag's direction beyond ±80, clamped to the three positions |
| `BottomSheet.SettleProperties` | components/search/BottomSheet.tsx:50-66 | a drag within ±80 never moves the sheet; no gesture goes between collapsed and full; the sheet never moves against the drag; it moves exactly when a step is asked for and possible |
| `BottomSheet.Initial` | components/search/BottomSheet.tsx:29-31 | the sheet starts not dragging, with a zero delta |
| `BottomSheet.DragStart` | components/search/BottomSheet.tsx:33-37 | starting a drag sets dragging, records the start point and zeroes the delta |
| `BottomSheet.DragMove` | components/search/BottomSheet.tsx:39-46 | a move outside a drag does nothing; inside one the delta becomes the distance from the start point |
| `BottomSheet.DragEnd` | components/search/BottomSheet.tsx:48-69 | ending a drag applies the table, then always stops dragging and zeroes the delta |
| `BottomSheet.Tap` | components/search/BottomSheet.tsx:107-109 | a tap opens a collapsed sheet half way; in other positions no tap handler is attached and nothing changes |
| `BottomSheet.IdlePreserved` | components/search/BottomSheet.tsx:33-69 | between gestures the delta stays zero, so a stray end event never moves the sheet |
| `BottomSheet.MovesKeepLast` | components/search/BottomSheet.tsx:39-46 | over a series of moves only the last pointer position counts |
| `BottomSheet.Gesture` | components/search/BottomSheet.tsx:33-69 | a press, moves and a release settle the sheet by the distance from the press to the last move |
| `BottomSheet.Scenarios` | components/search/BottomSheet.tsx:52-57 | from half, −90 opens fully, +90 collapses and 30 stays; a tap on the collapsed sheet opens it half way |
| `BottomSheet.Height` | components/search/BottomSheet.tsx:111-120 | collapsed, half and full map one-to-one to 80px, 50% and 100% |
| `BottomSheet.Body` | components/search/BottomSheet.tsx:145-171 | a collapsed sheet shows only events; the empty-favourites message shows exactly when open, the switch is on and there are no favourites; cards show only for a non-empty list |
| `FilterStore.Initial` | store/useFilterStore.ts:16-23 | today, no quick pickup, no parking, distance sort, empty query, the default district |
| `FilterStore.SetPickupDate` | store/useFilterStore.ts:27-30 | sets the date; tomorrow turns quick pickup off, today keeps it; nothing else changes |
| `FilterStore.SetQuickPickup` | store/useFilterStore.ts:31 | changes only quick pickup |
| `FilterStore.SetParkingAvailable` | store/useFilterStore.ts:32 | changes only parking |
| `FilterStore.SetSortBy` | store/useFilterStore.ts:33 | changes only the sort option |
| `FilterStore.SetSearchQuery` | store/useFilterStore.ts:34 | changes only the query |
| `FilterStore.SetLocation` | store/useFilterStore.ts:35 | changes only the location |
| `FilterStore.ResetFilters` | store/useFilterStore.ts:36 | restores quick pickup, parking and sort to their initial values and keeps the date, query and location |
| `FilterStore.TomorrowQuickPickupReachable` | store/useFilterStore.ts:29-31 | tomorrow together with quick pickup is reachable, so "tomorrow implies no quick pickup" is not an invariant |
| `FilterStore.ResetFiltersIdempotent` | store/useFilterStore.ts:36 | resetting twice is resetting once, and a reset undoes any quick-pickup, parking and sort changes |
| `FilterStore.SetPickupDateIdempotent` | store/useFilterStore.ts:27-30 | choosing the same date twice is choosing it once |
| `SearchHistoryStore.AddSearch` | store/useSearchHistoryStore.ts:22-31 | a blank query changes nothing. Otherwise the trimmed query heads the list exactly once, followed by the other old entries in order, and the list is cut to 10. No duplicates is preserved |
| `SearchHistoryStore.RemoveSearch` | store/useSearchHistoryStore.ts:32-35 | every entry equal to the untrimmed query goes; the others keep their multiplicity and order |
| `SearchHistoryStore.ClearHistory` | store/useSearchHistoryStore.ts:36 | the history becomes empty, the state it also starts in |
| `SearchHistoryStore.AddSearchIdempotent` | store/useSearchHistoryStore.ts:22-31 | adding the same query twice is adding it once |
| `SearchHistoryStore.AddSearchTrimmed` | store/useSearchHistoryStore.ts:24 | adding the raw or the trimmed query gives the same history |
| `SearchHistoryStore.RemoveAfterAdd` | store/useSearchHistoryStore.ts:22-35 | removing a just-added query leaves the other old entries, cut to 9 |
| `FavoriteStore.Initial` | store/useFavoriteStore.ts:15 | no id is a favourite |
| `FavoriteStore.IsFavorite` | store/useFavoriteStore.ts:26 | `isFavorite` holds exactly for the members of the set |
| `FavoriteStore.Size` | app/search/page.tsx:90 | `favorites.size` is the number of distinct members |
| `FavoriteStore.Toggle` | store/useFavoriteStore.ts:16-25 | flips the membership of the id, leaves every other id alone and keeps the set free of duplicates |
| `FavoriteStore.ToggleTwice` | store/useFavoriteStore.ts:16-25 | toggling twice restores the members. An absent id leaves no trace. A present id moves to the end of the insertion order |
| `FavoriteStore.Serialize` | store/useFavoriteStore.ts:48 | `Array.from` lists exactly the members, once each |
| `FavoriteStore.Deserialize` | store/useFavoriteStore.ts:39 | `new Set(array)` holds exactly the array's ids |
| `FavoriteStore.SerializeRoundTrip` | store/useFavoriteStore.ts:39-48 | writing a set out and reading it back gives the same set in the same order |
| `FavoriteStore.DeserializeRoundTrip` | store/useFavoriteStore.ts:39-48 | an array without repeats survives reading and writing; any array is stable after one round |
| `SearchInputView.NormalizedQuery` | components/search/SearchInputView.tsx:34-35 | the trimmed, lowered query is empty exactly for blank input |
| `SearchInputView.MatchingAddresses` | components/search/SearchInputView.tsx:41-47 | each matching address is counted as many times as stores have it; the matching addresses are those of matching stores |
| `SearchInputView.Bump` | components/search/SearchInputView.tsx:44-45 | a map update adds one to the address's count and nothing else; an existing key keeps its place and a new key goes last |
| `SearchInputView.TallyFacts` | components/search/SearchInputView.tsx:40-51 | the keys are the addresses in first-seen order; each count is the address's multiplicity; the counts add up to the number counted |
| `SearchInputView.CountOfAt` | components/search/SearchInputView.tsx:44 | with distinct keys, a key's lookup finds its own entry |
| `SearchInputView.Locations` | components/search/SearchInputView.tsx:40-51 | distinct addresses containing the query, in first-seen order, each with the number of stores at exactly that address; the counts add up to the number of matching stores |
| `SearchInputView.StoreMatches` | components/search/SearchInputView.tsx:54-56 | the order-preserving filter of the stores whose lowered name contains the query |
| `SearchInputView.ItemHits` | components/search/SearchInputView.tsx:61-65 | a hit is listed exactly when it names the store and one of its items whose lowered name contains the query |
| `SearchInputView.ItemHitsFiltered` | components/search/SearchInputView.tsx:61-65 | one hit per matching item of the store, in item order, repeated names included: the i-th hit names the i-th item whose lowered name contains the query |
| `SearchInputView.MenuHits` | components/search/SearchInputView.tsx:59-66 | a hit is listed exactly when its store is listed, it names one of that store's items and that name contains the query |
| `SearchInputView.MenuHitsAppend` | components/search/SearchInputView.tsx:59-66 | hits come store by store |
| `SearchInputView.MenuHitsAt` | components/search/SearchInputView.tsx:59-66 | the k-th store's hits form one block, exactly its item hits, between the hits of the stores before it and those after it |
| `SearchInputView.SearchResults` | components/search/SearchInputView.tsx:33-69 | blank input gives three empty buckets; otherwise the buckets are exactly the area, store-name and menu buckets of the normalized query, with their counts, multiplicities and order |
| `SearchInputView.HasResultsIff` | components/search/SearchInputView.tsx:71-73 | results show exactly when the input is not blank and some store matches by address, name or item |
| `SearchInputView.DisplayedMenus` | components/search/SearchInputView.tsx:235 | only the first min(10, n) menu hits are shown, in order |
| `SearchInputView.Open` | components/search/SearchInputView.tsx:27-28 | the field starts with the filter store's query and nothing is submitted, so no results show for any stores |
| `SearchInputView.Submit` | components/search/SearchInputView.tsx:75-84 | a blank field does nothing; otherwise the trimmed text becomes the submitted query and heads the history |
| `SearchInputView.SubmitSearchesInput` | components/search/SearchInputView.tsx:78-80 | after a submit the buckets are those of the field's own text |
| `SearchInputView.Clear` | components/search/SearchInputView.tsx:137-143 | the clear button, shown only while the field is not empty, empties the field and the submitted query, so no results show |
| `StoreCard.LowestPriceItem` | components/home/StoreCard.tsx:28-30 | an item of the store whose sale price is the lowest; on ties the earliest such item |
| `StoreCard.LowestPriceIsMinSale` | components/home/StoreCard.tsx:28-30 | its price is the one the price sort uses |
| `StoreCard.FormatDistance` | components/home/StoreCard.tsx:17-22 | under 1000 metres the text is the metres in canonical decimal followed by "m"; otherwise the kilometre branch |
| `StoreCard.AvailabilityBadge` | components/home/StoreCard.tsx:71 | "5+" exactly from five on; otherwise the exact count in canonical decimal |
| `StoreCard.PickupDayLabel` | components/home/StoreCard.tsx:45-46 | today's label exactly when the store picks up today, otherwise tomorrow's |
| `StoreCard.SpansIsJoin` | components/home/StoreCard.tsx:129-134 | the spans concatenate to the names joined by the separator |
| `StoreCard.MenuTagsIsJoin` | components/home/StoreCard.tsx:129-134 | the tag line is the first min(3, n) names with the bar separator between consecutive names only |
| `LocationModal.Open` | components/home/LocationModal.tsx:35-42 | opening shows the main view with an empty query, no address and no registration |
| `LocationModal.SetQuery` | components/home/LocationModal.tsx:210 | typing changes only the query |
| `LocationModal.SearchSubmit` | components/home/LocationModal.tsx:71-81 | blank input does nothing; otherwise the untrimmed query, prefixed with the city, becomes the address and the map view opens |
| `LocationModal.LocationFound` | components/home/LocationModal.tsx:50-58 | a located position becomes the address and the map view opens |
| `LocationModal.Confirm` | components/home/LocationModal.tsx:84-96 | with no address nothing happens; otherwise the home slot is written exactly when registering home, the work slot exactly when registering work, and the address is emitted and the modal closed |
| `LocationModal.StartRegister` | components/home/LocationModal.tsx:99-102 | the home and work buttons set the registration and open the search view |
| `LocationModal.Back` | components/home/LocationModal.tsx:105-112 | map goes back to search keeping the registration; search goes back to main dropping it; main stays |
| `LocationModal.MainSearch` | components/home/LocationModal.tsx:129-132 | the main search button drops the registration and opens the search view |
| `LocationModal.MainCurrentLocation` | components/home/LocationModal.tsx:143-146 | the main location button drops the registration |
| `LocationModal.MapEdit` | components/home/LocationModal.tsx:288 | the edit button returns to search keeping the registration |
| `LocationModal.ConfirmLabel` | components/home/LocationModal.tsx:299 | the confirm label names exactly the slot being registered |
| `LocationModal.StepPreservesValid` | components/home/LocationModal.tsx:35-112 | every action a view offers keeps the invariant: the map view has an address, and the main view is not registering |
| `LocationModal.RunPreservesValid` | components/home/LocationModal.tsx:35-112 | any series of offered actions keeps that invariant |
| `LocationModal.ReachableValid` | components/home/LocationModal.tsx:35-96 | every state reached from opening is valid, so confirming from the map view always closes |
| `LocationModal.RegisterHome` | components/home/LocationModal.tsx:71-102 | registering home end to end writes the prefixed address to the home slot only, emits it and closes |
| `SavedLocationStore.Initial` | store/useSavedLocationStore.ts:21-22 | home holds the default district and work is empty |
| `SavedLocationStore.SetHome` | store/useSavedLocationStore.ts:23 | sets home, keeps work |
| `SavedLocationStore.SetWork` | store/useSavedLocationStore.ts:24 | sets work, keeps home |
| `SavedLocationStore.ClearHome` | store/useSavedLocationStore.ts:25 | empties home, keeps work |
| `SavedLocationStore.ClearWork` | store/useSavedLocationStore.ts:26 | empties work, keeps home |
| `SavedLocationStore.SlotsIndependent` | store/useSavedLocationStore.ts:23-26 | writes to different slots commute, and a later write to a slot overrides an earlier one |

## Left out

- Browser geolocation (components/home/LocationModal.tsx:47-68) is left out. Its successful result enters as the `coordinates` parameter of `LocationModal.LocationFound`. The error alerts and the coordinate text are not modelled.
- The map SDK and the map widget (components/search/MapView.tsx), latitude and longitude, and the `onLoadMore` hook are foreign code with floating-point coordinates.
- The timer-driven banners and sliders are left out because they depend on intervals and scroll positions.
- `StoreCard.FormatDistance` models only the branch choice from 1000 metres on. The kilometre text comes from `toFixed(1)` on a binary float, and its rounding is left out.
- `StoreCard.LowestPriceItem` requires a non-empty menu. In the source, `reduce` without a seed throws a TypeError on an empty array (components/home/StoreCard.tsx:28-30), so a card for a store without items fails to render. Stores without items do reach the lists (see `SortKey.PastEnd`). The model states no result for that case.
- Prices are shown with `toLocaleString('ko-KR')`. That locale formatting is left out.
- The text highlighting in the search overlay is left out. It builds React nodes with a stateful global regular expression.
- The localStorage and JSON round trip of the persisted stores is left out. Only the in-memory conversion of the favourite set to an array and back is modelled.
- The overlay's selection handlers `handleSelectLocation`, `handleSelectStore` and `handleSelectQuery` are left out. Each is an `addSearch` followed by navigation or a filter-store write. Those parts are modelled on their own.
- The history and category buttons of the overlay are left out. They call the history store's `removeSearch`, `clearHistory` and `addSearch`, which are modelled on their own.
- The store card's favourite button is left out because it calls `toggleFavorite`. The notification button has no behaviour.
- The category list and the store and event fixtures are data files that are not part of this model. Stores, events and chip labels are parameters.
- The home page renders the list without its `events` prop. Events are a parameter here, and that call site is not modelled.
- The category modal is not modelled because it reads store fields that do not exist.
- The remaining pages, the layout, the navigation bar and the presentational components carry no decision logic.
- Stale closures, batching and timing of React updates are left out. Each handler is an atomic step on the latest state. A `mouseup` handled before a re-render sees older values in the source.
- `Text.Lower` lowers ASCII letters only. Full Unicode case mapping of `toLowerCase` is not modelled, so matching can differ for non-ASCII letters other than Hangul, which has no case.
- JS numbers are modelled as unbounded integers. Precision loss above 2^53 and fractional prices or distances are not modelled. The NaN and ±Infinity that empty menus give the price sort are modelled.
