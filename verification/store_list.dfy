/** The home list (components/home/StoreList.tsx): the filter/sort memo
    `filteredAndSortedStores`, and the loop that places one event banner
    after every third store while events last. */
module StoreList {
  import opened Types
  import opened Text
  import Seqs
  import opened StoreOrder

  /** The case-insensitive text match both pipelines use: the lowered store
      name, or the lowered name of some menu item, includes the lowered
      needle. */
  predicate MatchesText(st: Store, needle: string) {
    var q := Lower(needle);
    || Includes(Lower(st.name), q)
    || exists i :: 0 <= i < |st.menuItems| && Includes(Lower(st.menuItems[i].name), q)
  }

  /** The filter callback of lines 19-42, with its early returns in order. */
  predicate HomeKeep(st: Store, f: FilterState) {
    if f.pickupDate == Today && !st.pickupAvailable.today then false
    else if f.pickupDate == Tomorrow && !st.pickupAvailable.tomorrow then false
    else if f.quickPickup && !st.quickPickup then false
    else if f.parkingAvailable && !st.parkingAvailable then false
    else if f.searchQuery != "" && !MatchesText(st, f.searchQuery) then false
    else true
  }

  /** The individual predicates of the filter, each stated on its own. */
  predicate PickupDateOk(st: Store, d: PickupDate) {
    match d
    case Today => st.pickupAvailable.today
    case Tomorrow => st.pickupAvailable.tomorrow
  }

  predicate QuickPickupOk(st: Store, required: bool) {
    required ==> st.quickPickup
  }

  predicate ParkingOk(st: Store, required: bool) {
    required ==> st.parkingAvailable
  }

  /** An empty query is falsy and imposes nothing. */
  predicate QueryOk(st: Store, query: string) {
    query == "" || MatchesText(st, query)
  }

  /** The early-return chain keeps a store exactly when it passes every
      active predicate. */
  lemma HomeKeepIsConjunction(st: Store, f: FilterState)
    ensures HomeKeep(st, f) <==>
              && PickupDateOk(st, f.pickupDate)
              && QuickPickupOk(st, f.quickPickup)
              && ParkingOk(st, f.parkingAvailable)
              && QueryOk(st, f.searchQuery)
  {
  }

  function HomeKeeper(f: FilterState): Store -> bool {
    st => HomeKeep(st, f)
  }

  /** `stores.filter(...)`, lines 19-42. */
  function HomeFilter(stores: seq<Store>, f: FilterState): seq<Store> {
    Seqs.Filter(stores, HomeKeeper(f))
  }

  /** `filteredAndSortedStores`: the stores that pass every active
      predicate, each with its multiplicity in the input, stable-sorted by the
      selected key. */
  function FilteredAndSorted(stores: seq<Store>, f: FilterState): (r: seq<Store>)
    ensures forall st :: multiset(r)[st] == if HomeKeep(st, f) then multiset(stores)[st] else 0
    ensures forall i :: 0 <= i < |r| ==>
              && PickupDateOk(r[i], f.pickupDate)
              && QuickPickupOk(r[i], f.quickPickup)
              && ParkingOk(r[i], f.parkingAvailable)
              && QueryOk(r[i], f.searchQuery)
    ensures SortedBy(r, f.sortBy)
    ensures forall k :: WithKey(r, f.sortBy, k) == WithKey(HomeFilter(stores, f), f.sortBy, k)
  {
    var kept := HomeFilter(stores, f);
    var r := SortStores(kept, f.sortBy);
    Seqs.FilterMultiset(stores, HomeKeeper(f));
    SortIsStableAll(kept, f.sortBy);
    Seqs.AllPassPermuted(kept, r, HomeKeeper(f));
    r
  }

  lemma SortIsStableAll(s: seq<Store>, opt: SortOption)
    ensures forall k :: WithKey(SortStores(s, opt), opt, k) == WithKey(s, opt, k)
  {
    forall k {
      SortIsStable(s, opt, k);
    }
  }

  /** Running the pipeline on its own output changes nothing: every store in
      it passes the filter again and it is already sorted. */
  lemma {:induction false} FilteredAndSortedIdempotent(stores: seq<Store>, f: FilterState)
    ensures FilteredAndSorted(FilteredAndSorted(stores, f), f) == FilteredAndSorted(stores, f)
  {
    var r := FilteredAndSorted(stores, f);
    forall i | 0 <= i < |r|
      ensures HomeKeeper(f)(r[i])
    {
      HomeKeepIsConjunction(r[i], f);
    }
    Seqs.FilterAllPass(r, HomeKeeper(f));
    SortSorted(r, f.sortBy);
  }

  /** A list entry: a store card or an event banner. */
  datatype ListItem = StoreItem(store: Store) | EventItem(event: Event)

  const EventInsertInterval: nat := 3

  /** What the loop pushes for the store at 0-based position `k`: the store,
      then event number (k + 1) / 3 when k + 1 is a multiple of the interval
      and that event exists. */
  function Block(st: Store, events: seq<Event>, k: nat): seq<ListItem> {
    [StoreItem(st)]
    + (if (k + 1) % EventInsertInterval == 0 && (k + 1) / EventInsertInterval <= |events|
       then [EventItem(events[(k + 1) / EventInsertInterval - 1])]
       else [])
  }

  function StoresOf(items: seq<ListItem>): seq<Store> {
    if |items| == 0 then []
    else (if items[0].StoreItem? then [items[0].store] else []) + StoresOf(items[1..])
  }

  function EventsOf(items: seq<ListItem>): seq<Event> {
    if |items| == 0 then []
    else (if items[0].EventItem? then [items[0].event] else []) + EventsOf(items[1..])
  }

  lemma {:induction false} StoresOfAppend(a: seq<ListItem>, b: seq<ListItem>)
    ensures StoresOf(a + b) == StoresOf(a) + StoresOf(b)
  {
    if |a| == 0 {
      assert a + b == b;
    } else {
      assert (a + b)[0] == a[0];
      assert (a + b)[1..] == a[1..] + b;
      StoresOfAppend(a[1..], b);
    }
  }

  lemma {:induction false} EventsOfAppend(a: seq<ListItem>, b: seq<ListItem>)
    ensures EventsOf(a + b) == EventsOf(a) + EventsOf(b)
  {
    if |a| == 0 {
      assert a + b == b;
    } else {
      assert (a + b)[0] == a[0];
      assert (a + b)[1..] == a[1..] + b;
      EventsOfAppend(a[1..], b);
    }
  }

  lemma BlockStores(st: Store, events: seq<Event>, k: nat)
    ensures StoresOf(Block(st, events, k)) == [st]
  {
    assert StoresOf([StoreItem(st)]) == [st] by {
      assert [StoreItem(st)][1..] == [];
    }
    if (k + 1) % EventInsertInterval == 0 && (k + 1) / EventInsertInterval <= |events| {
      var e := events[(k + 1) / EventInsertInterval - 1];
      assert Block(st, events, k) == [StoreItem(st)] + [EventItem(e)];
      assert StoresOf([EventItem(e)]) == [] by {
        assert [EventItem(e)][1..] == [];
      }
      StoresOfAppend([StoreItem(st)], [EventItem(e)]);
    } else {
      assert Block(st, events, k) == [StoreItem(st)];
    }
  }

  lemma BlockProjections(st: Store, events: seq<Event>, k: nat)
    ensures StoresOf(Block(st, events, k)) == [st]
    ensures EventsOf(Block(st, events, k))
            == if (k + 1) % EventInsertInterval == 0 && (k + 1) / EventInsertInterval <= |events|
               then [events[(k + 1) / EventInsertInterval - 1]] else []
  {
    var block := Block(st, events, k);
    assert StoresOf([StoreItem(st)]) == [st] && EventsOf([StoreItem(st)]) == [] by {
      assert [StoreItem(st)][1..] == [];
    }
    if (k + 1) % EventInsertInterval == 0 && (k + 1) / EventInsertInterval <= |events| {
      var e := events[(k + 1) / EventInsertInterval - 1];
      assert block == [StoreItem(st)] + [EventItem(e)];
      assert [EventItem(e)][1..] == [];
      assert StoresOf([EventItem(e)]) == [];
      assert EventsOf([EventItem(e)]) == [e] + EventsOf([]);
      StoresOfAppend([StoreItem(st)], [EventItem(e)]);
      EventsOfAppend([StoreItem(st)], [EventItem(e)]);
    } else {
      assert block == [StoreItem(st)];
    }
  }

  /** The interleaved list, block by block. */
  function Interleave(stores: seq<Store>, events: seq<Event>): seq<ListItem>
    decreases |stores|
  {
    if |stores| == 0 then []
    else Interleave(stores[..|stores| - 1], events) + Block(stores[|stores| - 1], events, |stores| - 1)
  }

  /** Dropping the events from the interleaved list gives back the stores;
      the events in it are the first min(|events|, |stores| / 3) of `events`,
      in order. */
  lemma InterleaveProjections(stores: seq<Store>, events: seq<Event>)
    ensures StoresOf(Interleave(stores, events)) == stores
    ensures EventsOf(Interleave(stores, events))
            == events[..Seqs.Min(|events|, |stores| / EventInsertInterval)]
    ensures |Interleave(stores, events)| == |stores| + Seqs.Min(|events|, |stores| / EventInsertInterval)
  {
    InterleaveStores(stores, events);
    InterleaveEventList(stores, events);
    InterleaveLength(stores, events);
  }

  lemma {:induction false} InterleaveStores(stores: seq<Store>, events: seq<Event>)
    ensures StoresOf(Interleave(stores, events)) == stores
    decreases |stores|
  {
    if |stores| > 0 {
      var n := |stores|;
      InterleaveStores(stores[..n - 1], events);
      var init := Interleave(stores[..n - 1], events);
      var block := Block(stores[n - 1], events, n - 1);
      assert Interleave(stores, events) == init + block;
      StoresOfAppend(init, block);
      BlockStores(stores[n - 1], events, n - 1);
      assert stores[..n - 1] + [stores[n - 1]] == stores;
    }
  }

  lemma {:induction false} InterleaveEventList(stores: seq<Store>, events: seq<Event>)
    ensures EventsOf(Interleave(stores, events))
            == events[..Seqs.Min(|events|, |stores| / EventInsertInterval)]
    decreases |stores|
  {
    if |stores| > 0 {
      var n := |stores|;
      InterleaveEventList(stores[..n - 1], events);
      EventsOfAppend(Interleave(stores[..n - 1], events), Block(stores[n - 1], events, n - 1));
      BlockProjections(stores[n - 1], events, n - 1);
      if n % 3 == 0 && n / 3 <= |events| {
        assert events[..n / 3] == events[..n / 3 - 1] + [events[n / 3 - 1]];
      } else {
        assert Seqs.Min(|events|, n / 3) == Seqs.Min(|events|, (n - 1) / 3);
      }
    }
  }

  lemma {:induction false} InterleaveLength(stores: seq<Store>, events: seq<Event>)
    ensures |Interleave(stores, events)| == |stores| + Seqs.Min(|events|, |stores| / EventInsertInterval)
    decreases |stores|
  {
    if |stores| > 0 {
      var n := |stores|;
      InterleaveLength(stores[..n - 1], events);
      if n % 3 == 0 && n / 3 <= |events| {
        assert |Block(stores[n - 1], events, n - 1)| == 2;
      } else {
        assert |Block(stores[n - 1], events, n - 1)| == 1;
        assert Seqs.Min(|events|, n / 3) == Seqs.Min(|events|, (n - 1) / 3);
      }
    }
  }

  /** The forEach loop of lines 87-96, with its running `eventIndex`. */
  method InterleaveEvents(stores: seq<Store>, events: seq<Event>) returns (items: seq<ListItem>)
    ensures items == Interleave(stores, events)
    ensures StoresOf(items) == stores
    ensures EventsOf(items) == events[..Seqs.Min(|events|, |stores| / EventInsertInterval)]
  {
    items := [];
    var eventIndex := 0;
    var index := 0;
    while index < |stores|
      invariant 0 <= index <= |stores|
      invariant eventIndex == Seqs.Min(|events|, index / EventInsertInterval)
      invariant items == Interleave(stores[..index], events)
    {
      assert stores[..index + 1][..index] == stores[..index];
      items := items + [StoreItem(stores[index])];
      if (index + 1) % EventInsertInterval == 0 && eventIndex < |events| {
        items := items + [EventItem(events[eventIndex])];
        eventIndex := eventIndex + 1;
      }
      index := index + 1;
    }
    assert stores[..index] == stores;
    InterleaveProjections(stores, events);
  }

  /** The interleaving of a prefix of the stores is a prefix of the whole. */
  lemma {:induction false} InterleavePrefix(stores: seq<Store>, events: seq<Event>, m: nat)
    requires m <= |stores|
    ensures Interleave(stores[..m], events) <= Interleave(stores, events)
    decreases |stores|
  {
    if m < |stores| {
      var n := |stores|;
      assert Interleave(stores, events)
             == Interleave(stores[..n - 1], events) + Block(stores[n - 1], events, n - 1);
      InterleavePrefix(stores[..n - 1], events, m);
      assert stores[..n - 1][..m] == stores[..m];
    } else {
      assert stores[..m] == stores;
    }
  }

  /** The block of the k-th store starts at position k + min(|events|, k / 3)
      of the interleaved list. */
  lemma BlockAt(stores: seq<Store>, events: seq<Event>, k: nat)
    requires k < |stores|
    ensures var p := k + Seqs.Min(|events|, k / EventInsertInterval);
            var block := Block(stores[k], events, k);
            Interleave(stores[..k], events) + block <= Interleave(stores, events)
            && |Interleave(stores[..k], events)| == p
  {
    InterleavePrefix(stores, events, k + 1);
    assert stores[..k + 1][..k] == stores[..k];
    InterleaveProjections(stores[..k], events);
  }

  /** The k-th store (0-based) sits at position k + min(|events|, k / 3),
      and the entry right after it is an event exactly when k + 1 is a
      multiple of 3 and an event for that slot remains. */
  lemma EventFollowsStore(stores: seq<Store>, events: seq<Event>, k: nat)
    requires k < |stores|
    ensures var items := Interleave(stores, events);
            var p := k + Seqs.Min(|events|, k / EventInsertInterval);
            && p < |items|
            && items[p] == StoreItem(stores[k])
            && (p + 1 < |items| && items[p + 1].EventItem?
                <==> (k + 1) % EventInsertInterval == 0 && (k + 1) / EventInsertInterval <= |events|)
  {
    var items := Interleave(stores, events);
    var p := k + Seqs.Min(|events|, k / EventInsertInterval);
    var block := Block(stores[k], events, k);
    BlockAt(stores, events, k);
    assert items[p] == block[0];
    if |block| == 2 {
      assert items[p + 1] == block[1];
    } else if k + 1 < |stores| {
      NextIsStore(stores, events, k);
    } else {
      InterleaveProjections(stores, events);
    }
  }

  /** When the k-th block holds no event, the entry after the k-th store is
      the next store. */
  lemma NextIsStore(stores: seq<Store>, events: seq<Event>, k: nat)
    requires k + 1 < |stores|
    requires |Block(stores[k], events, k)| == 1
    ensures var items := Interleave(stores, events);
            var p := k + Seqs.Min(|events|, k / EventInsertInterval);
            p + 1 < |items| && items[p + 1] == StoreItem(stores[k + 1])
  {
    var p := k + Seqs.Min(|events|, k / EventInsertInterval);
    BlockAt(stores, events, k + 1);
    assert !((k + 1) % 3 == 0 && (k + 1) / 3 <= |events|);
    assert Seqs.Min(|events|, (k + 1) / 3) == Seqs.Min(|events|, k / 3);
    var next := Interleave(stores[..k + 1], events) + Block(stores[k + 1], events, k + 1);
    assert next[p + 1] == StoreItem(stores[k + 1]);
  }

  /** What the home list renders: an empty-state message, or the items. */
  datatype HomeView = NoResults | Listing(items: seq<ListItem>)

  /** The render of lines 73-96. The empty state shows exactly when no input
      store passes the filter; otherwise the listing holds the filtered and
      sorted stores, in order, with the interleaved events. */
  method RenderHomeList(stores: seq<Store>, events: seq<Event>, f: FilterState) returns (v: HomeView)
    ensures v.NoResults? <==> forall i :: 0 <= i < |stores| ==> !HomeKeep(stores[i], f)
    ensures v.Listing? ==> StoresOf(v.items) == FilteredAndSorted(stores, f)
    ensures v.Listing? ==> EventsOf(v.items) <= events
    ensures v.Listing? ==> v.items == Interleave(FilteredAndSorted(stores, f), events)
  {
    var sorted := FilteredAndSorted(stores, f);
    if |sorted| == 0 {
      forall i | 0 <= i < |stores|
        ensures !HomeKeep(stores[i], f)
      {
        assert multiset(sorted)[stores[i]] == 0;
        assert stores[i] in multiset(stores);
      }
      v := NoResults;
    } else {
      assert sorted[0] in multiset(sorted);
      assert HomeKeep(sorted[0], f) && sorted[0] in stores;
      var items := InterleaveEvents(sorted, events);
      v := Listing(items);
    }
  }
}
