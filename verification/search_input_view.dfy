/** The search overlay of the map screen (components/search/SearchInputView.tsx):
    the three result buckets computed from the submitted query, and the
    submit and clear handlers. */
module SearchInputView {
  import opened Types
  import opened Seqs
  import opened Text
  import SearchHistoryStore

  /** `submittedQuery.trim().toLowerCase()`; empty exactly for blank input. */
  function NormalizedQuery(submitted: string): (q: string)
    ensures q == "" <==> AllWhitespace(submitted)
  {
    TrimEmptyIffBlank(submitted);
    Lower(Trim(submitted))
  }

  /** Number of stores whose address is exactly `a`. */
  function CountAddress(stores: seq<Store>, a: string): nat {
    if |stores| == 0 then 0
    else (if stores[0].address == a then 1 else 0) + CountAddress(stores[1..], a)
  }

  predicate AddressMatches(st: Store, q: string) {
    Includes(Lower(st.address), q)
  }

  /** The addresses the `forEach` of lines 41-47 counts, one per matching
      store, in store order. Every store at a matching address matches. */
  function MatchingAddresses(stores: seq<Store>, q: string): (r: seq<string>)
    ensures forall a :: multiset(r)[a] == if Includes(Lower(a), q) then CountAddress(stores, a) else 0
    ensures forall a :: a in r <==> exists st :: st in stores && st.address == a && AddressMatches(st, q)
  {
    if |stores| == 0 then []
    else
      var rest := MatchingAddresses(stores[1..], q);
      var r := (if AddressMatches(stores[0], q) then [stores[0].address] else []) + rest;
      MatchingCounts(stores, q, rest, r);
      MatchingMembers(stores, q, rest, r);
      r
  }

  lemma MatchingCounts(stores: seq<Store>, q: string, rest: seq<string>, r: seq<string>)
    requires |stores| > 0
    requires r == (if AddressMatches(stores[0], q) then [stores[0].address] else []) + rest
    requires forall a :: multiset(rest)[a] == if Includes(Lower(a), q) then CountAddress(stores[1..], a) else 0
    ensures forall a :: multiset(r)[a] == if Includes(Lower(a), q) then CountAddress(stores, a) else 0
  {
    forall a
      ensures multiset(r)[a] == if Includes(Lower(a), q) then CountAddress(stores, a) else 0
    {
      assert CountAddress(stores, a)
             == (if stores[0].address == a then 1 else 0) + CountAddress(stores[1..], a);
    }
  }

  lemma MatchingMembers(stores: seq<Store>, q: string, rest: seq<string>, r: seq<string>)
    requires |stores| > 0
    requires r == (if AddressMatches(stores[0], q) then [stores[0].address] else []) + rest
    requires forall a :: a in rest <==> exists st :: st in stores[1..] && st.address == a && AddressMatches(st, q)
    ensures forall a :: a in r <==> exists st :: st in stores && st.address == a && AddressMatches(st, q)
  {
    assert stores == [stores[0]] + stores[1..];
    forall a | a in r
      ensures exists st :: st in stores && st.address == a && AddressMatches(st, q)
    {
      if a !in rest {
        assert stores[0] in stores;
      }
    }
    forall a | exists st :: st in stores && st.address == a && AddressMatches(st, q)
      ensures a in r
    {
      var st :| st in stores && st.address == a && AddressMatches(st, q);
      if st != stores[0] {
        assert st in stores[1..];
      }
    }
  }

  /** One entry of `addressMap`, kept in insertion order. */
  datatype Location = Location(address: string, storeCount: nat)

  function Addresses(e: seq<Location>): (r: seq<string>)
    ensures |r| == |e|
    ensures forall i :: 0 <= i < |e| ==> r[i] == e[i].address
  {
    if |e| == 0 then [] else [e[0].address] + Addresses(e[1..])
  }

  /** `addressMap.get(a) || 0`. */
  function CountOf(e: seq<Location>, a: string): nat {
    if |e| == 0 then 0
    else if e[0].address == a then e[0].storeCount
    else CountOf(e[1..], a)
  }

  function Total(e: seq<Location>): nat {
    if |e| == 0 then 0 else e[0].storeCount + Total(e[1..])
  }

  /** `addressMap.set(a, count + 1)`: an existing key keeps its place, a new
      key goes to the end. */
  function Bump(e: seq<Location>, a: string): (r: seq<Location>)
    ensures Addresses(r) == if a in Addresses(e) then Addresses(e) else Addresses(e) + [a]
    ensures forall b :: CountOf(r, b) == CountOf(e, b) + (if b == a then 1 else 0)
    ensures Total(r) == Total(e) + 1
  {
    if |e| == 0 then [Location(a, 1)]
    else if e[0].address == a then
      var r := [e[0].(storeCount := e[0].storeCount + 1)] + e[1..];
      BumpHit(e, a, r);
      r
    else
      var rest := Bump(e[1..], a);
      var r := [e[0]] + rest;
      BumpPast(e, a, rest, r);
      r
  }

  lemma BumpHit(e: seq<Location>, a: string, r: seq<Location>)
    requires |e| > 0 && e[0].address == a
    requires r == [e[0].(storeCount := e[0].storeCount + 1)] + e[1..]
    ensures Addresses(r) == Addresses(e)
    ensures forall b :: CountOf(r, b) == CountOf(e, b) + (if b == a then 1 else 0)
    ensures Total(r) == Total(e) + 1
  {
    assert r[1..] == e[1..];
    assert Addresses(r) == [a] + Addresses(e[1..]);
  }

  lemma BumpPast(e: seq<Location>, a: string, rest: seq<Location>, r: seq<Location>)
    requires |e| > 0 && e[0].address != a && r == [e[0]] + rest
    requires Addresses(rest) == if a in Addresses(e[1..]) then Addresses(e[1..]) else Addresses(e[1..]) + [a]
    requires forall b :: CountOf(rest, b) == CountOf(e[1..], b) + (if b == a then 1 else 0)
    requires Total(rest) == Total(e[1..]) + 1
    ensures Addresses(r) == if a in Addresses(e) then Addresses(e) else Addresses(e) + [a]
    ensures forall b :: CountOf(r, b) == CountOf(e, b) + (if b == a then 1 else 0)
    ensures Total(r) == Total(e) + 1
  {
    assert r[1..] == rest;
    assert Addresses(e) == [e[0].address] + Addresses(e[1..]);
    assert Addresses(r) == [e[0].address] + Addresses(rest);
    assert a in Addresses(e) <==> a in Addresses(e[1..]);
  }

  /** The map after counting `addrs` one by one. */
  function Tally(addrs: seq<string>): seq<Location>
    decreases |addrs|
  {
    if |addrs| == 0 then [] else Bump(Tally(addrs[..|addrs| - 1]), addrs[|addrs| - 1])
  }

  /** The keys are the addresses in first-seen order, each count is the
      multiplicity of its address, and the counts add up to the number of
      addresses counted. */
  lemma {:induction false} TallyFacts(addrs: seq<string>)
    ensures Addresses(Tally(addrs)) == Dedup(addrs)
    ensures forall b :: CountOf(Tally(addrs), b) == multiset(addrs)[b]
    ensures Total(Tally(addrs)) == |addrs|
    decreases |addrs|
  {
    if |addrs| > 0 {
      var init := addrs[..|addrs| - 1];
      TallyFacts(init);
      assert addrs == init + [addrs[|addrs| - 1]];
    }
  }

  /** With distinct keys, looking an entry's own key up finds that entry. */
  lemma {:induction false} CountOfAt(e: seq<Location>, i: int)
    requires NoDup(Addresses(e)) && 0 <= i < |e|
    ensures CountOf(e, e[i].address) == e[i].storeCount
    decreases |e|
  {
    if i > 0 {
      assert Addresses(e[1..]) == Addresses(e)[1..];
      assert Addresses(e)[0] != Addresses(e)[i];
      CountOfAt(e[1..], i - 1);
    }
  }

  lemma {:induction false} TotalPositive(e: seq<Location>)
    requires |e| > 0 && forall i :: 0 <= i < |e| ==> e[i].storeCount > 0
    ensures Total(e) > 0
  {
  }

  /** The "by area" bucket, lines 40-51: distinct addresses that contain the
      query, in the order of the first store at each, each with the number of
      stores at exactly that address; the counts add up to the number of
      address-matching stores. */
  function Locations(stores: seq<Store>, q: string): (r: seq<Location>)
    ensures NoDup(Addresses(r))
    ensures Addresses(r) == Dedup(MatchingAddresses(stores, q))
    ensures forall i :: 0 <= i < |r| ==>
              && Includes(Lower(r[i].address), q)
              && r[i].storeCount == CountAddress(stores, r[i].address)
              && r[i].storeCount > 0
    ensures Total(r) == |MatchingAddresses(stores, q)|
  {
    var m := MatchingAddresses(stores, q);
    var r := Tally(m);
    TallyFacts(m);
    forall i | 0 <= i < |r|
      ensures Includes(Lower(r[i].address), q) && r[i].storeCount == CountAddress(stores, r[i].address)
      ensures r[i].storeCount > 0
    {
      assert Addresses(r)[i] == r[i].address;
      assert r[i].address in m;
      CountOfAt(r, i);
    }
    r
  }

  function NameMatcher(q: string): Store -> bool {
    (st: Store) => Includes(Lower(st.name), q)
  }

  /** The "by store name" bucket, lines 54-56: an order-preserving filter. */
  function StoreMatches(stores: seq<Store>, q: string): (r: seq<Store>)
    ensures forall st :: st in r <==> st in stores && Includes(Lower(st.name), q)
    ensures forall st :: multiset(r)[st] == if Includes(Lower(st.name), q) then multiset(stores)[st] else 0
  {
    FilterMultiset(stores, NameMatcher(q));
    Filter(stores, NameMatcher(q))
  }

  /** One entry of the "by menu" bucket. */
  datatype MenuHit = MenuHit(store: Store, menuName: string)

  /** The item test of line 62. */
  function ItemMatcher(q: string): MenuItem -> bool {
    (it: MenuItem) => Includes(Lower(it.name), q)
  }

  /** The inner `forEach` over one store's items: one hit for every matching
      item, in item order, repeated names included. */
  function ItemHits(st: Store, items: seq<MenuItem>, q: string): (r: seq<MenuHit>)
    ensures forall h :: h in r <==>
              h.store == st && Includes(Lower(h.menuName), q) && exists it :: it in items && it.name == h.menuName
  {
    if |items| == 0 then []
    else
      var rest := ItemHits(st, items[1..], q);
      var r := (if Includes(Lower(items[0].name), q) then [MenuHit(st, items[0].name)] else []) + rest;
      ItemHitsMembers(st, items, q, rest, r);
      r
  }

  /** The i-th hit names the i-th matching item: one hit per matching item,
      in item order, repeated names included. */
  lemma {:induction false} ItemHitsFiltered(st: Store, items: seq<MenuItem>, q: string)
    ensures |ItemHits(st, items, q)| == |Filter(items, ItemMatcher(q))|
    ensures forall i :: 0 <= i < |ItemHits(st, items, q)| ==>
              ItemHits(st, items, q)[i] == MenuHit(st, Filter(items, ItemMatcher(q))[i].name)
  {
    if |items| > 0 {
      ItemHitsFiltered(st, items[1..], q);
      MapFilterStep(items, ItemMatcher(q), (it: MenuItem) => MenuHit(st, it.name),
                    ItemHits(st, items[1..], q), ItemHits(st, items, q));
    }
  }

  lemma ItemHitsMembers(st: Store, items: seq<MenuItem>, q: string, rest: seq<MenuHit>, r: seq<MenuHit>)
    requires |items| > 0
    requires r == (if Includes(Lower(items[0].name), q) then [MenuHit(st, items[0].name)] else []) + rest
    requires forall h :: h in rest <==>
               h.store == st && Includes(Lower(h.menuName), q) && exists it :: it in items[1..] && it.name == h.menuName
    ensures forall h :: h in r <==>
              h.store == st && Includes(Lower(h.menuName), q) && exists it :: it in items && it.name == h.menuName
  {
    assert forall it :: it in items <==> it == items[0] || it in items[1..] by {
      assert items == [items[0]] + items[1..];
    }
  }

  /** The "by menu" bucket, lines 59-66: one entry per matching item, store by
      store and, within a store, item by item. */
  function MenuHits(stores: seq<Store>, q: string): (r: seq<MenuHit>)
    ensures forall h :: h in r <==>
              && h.store in stores
              && Includes(Lower(h.menuName), q)
              && exists it :: it in h.store.menuItems && it.name == h.menuName
  {
    if |stores| == 0 then []
    else
      assert forall st :: st in stores <==> st == stores[0] || st in stores[1..] by {
        assert stores == [stores[0]] + stores[1..];
      }
      ItemHits(stores[0], stores[0].menuItems, q) + MenuHits(stores[1..], q)
  }

  /** Store-major order: the hits of a list of stores are the hits of its
      parts, concatenated. */
  lemma {:induction false} MenuHitsAppend(a: seq<Store>, b: seq<Store>, q: string)
    ensures MenuHits(a + b, q) == MenuHits(a, q) + MenuHits(b, q)
  {
    if |a| == 0 {
      assert a + b == b;
    } else {
      assert (a + b)[1..] == a[1..] + b;
      MenuHitsAppend(a[1..], b, q);
    }
  }

  /** The hits of the k-th store form one block between those of the stores
      before it and those after it. */
  lemma MenuHitsAt(stores: seq<Store>, q: string, k: int)
    requires 0 <= k < |stores|
    ensures MenuHits(stores, q)
            == MenuHits(stores[..k], q) + ItemHits(stores[k], stores[k].menuItems, q) + MenuHits(stores[k + 1..], q)
  {
    var x := stores[k];
    assert stores == stores[..k] + ([x] + stores[k + 1..]);
    MenuHitsAppend(stores[..k], [x] + stores[k + 1..], q);
    MenuHitsAppend([x], stores[k + 1..], q);
    assert [x][1..] == [];
    assert MenuHits([x], q) == ItemHits(x, x.menuItems, q);
  }

  datatype Results = Results(locations: seq<Location>, stores: seq<Store>, menus: seq<MenuHit>)

  /** The `searchResults` memo: nothing for a blank query, otherwise the three
      buckets for the trimmed, lowered query. */
  function SearchResults(stores: seq<Store>, submitted: string): (r: Results)
    ensures AllWhitespace(submitted) ==> r == Results([], [], [])
    ensures !AllWhitespace(submitted) ==>
              var q := NormalizedQuery(submitted);
              && Addresses(r.locations) == Dedup(MatchingAddresses(stores, q))
              && (forall st :: st in r.stores <==> st in stores && Includes(Lower(st.name), q))
              && (forall h :: h in r.menus <==> h in MenuHits(stores, q))
    ensures !AllWhitespace(submitted) ==>
              var q := NormalizedQuery(submitted);
              r == Results(Locations(stores, q), StoreMatches(stores, q), MenuHits(stores, q))
  {
    var q := NormalizedQuery(submitted);
    if q == "" then Results([], [], [])
    else Results(Locations(stores, q), StoreMatches(stores, q), MenuHits(stores, q))
  }

  /** `hasResults`. */
  predicate HasResults(r: Results) {
    |r.locations| > 0 || |r.stores| > 0 || |r.menus| > 0
  }

  /** Some store matches the query by address, by name or by one of its
      items. */
  predicate AnyStoreMatches(stores: seq<Store>, q: string) {
    exists st :: st in stores &&
      (|| AddressMatches(st, q)
       || Includes(Lower(st.name), q)
       || exists it :: it in st.menuItems && Includes(Lower(it.name), q))
  }

  /** The area bucket is empty exactly when no store address matches. */
  lemma LocationsNonEmpty(stores: seq<Store>, q: string)
    ensures |Locations(stores, q)| > 0 <==> |MatchingAddresses(stores, q)| > 0
  {
    var r := Locations(stores, q);
    var m := MatchingAddresses(stores, q);
    if |r| > 0 {
      TotalPositive(r);
    }
    if |m| > 0 {
      assert m[0] in Dedup(m);
      assert Dedup(m)[0] == Addresses(r)[0];
    }
  }

  lemma MatchGivesResults(stores: seq<Store>, q: string)
    requires q != "" && AnyStoreMatches(stores, q)
    ensures |MatchingAddresses(stores, q)| > 0 || |StoreMatches(stores, q)| > 0 || |MenuHits(stores, q)| > 0
  {
    var st :| st in stores &&
      (|| AddressMatches(st, q)
       || Includes(Lower(st.name), q)
       || exists it :: it in st.menuItems && Includes(Lower(it.name), q));
    if AddressMatches(st, q) {
      assert st.address in MatchingAddresses(stores, q);
    } else if Includes(Lower(st.name), q) {
      assert st in StoreMatches(stores, q);
    } else {
      var it :| it in st.menuItems && Includes(Lower(it.name), q);
      assert MenuHit(st, it.name) in MenuHits(stores, q);
    }
  }

  lemma ResultsGiveMatch(stores: seq<Store>, q: string)
    requires |MatchingAddresses(stores, q)| > 0 || |StoreMatches(stores, q)| > 0 || |MenuHits(stores, q)| > 0
    ensures AnyStoreMatches(stores, q)
  {
    var m := MatchingAddresses(stores, q);
    if |m| > 0 {
      assert m[0] in m;
    } else if |StoreMatches(stores, q)| > 0 {
      assert StoreMatches(stores, q)[0] in StoreMatches(stores, q);
    } else {
      var h := MenuHits(stores, q)[0];
      assert h in MenuHits(stores, q);
      var it :| it in h.store.menuItems && it.name == h.menuName;
      assert Includes(Lower(it.name), q);
    }
  }

  /** The overlay shows results exactly when the query is not blank and some
      store matches it in one of the three ways. */
  lemma HasResultsIff(stores: seq<Store>, submitted: string)
    ensures HasResults(SearchResults(stores, submitted))
            <==> !AllWhitespace(submitted) && AnyStoreMatches(stores, NormalizedQuery(submitted))
  {
    var q := NormalizedQuery(submitted);
    if !AllWhitespace(submitted) {
      LocationsNonEmpty(stores, q);
      if AnyStoreMatches(stores, q) {
        MatchGivesResults(stores, q);
      }
      if HasResults(SearchResults(stores, submitted)) {
        ResultsGiveMatch(stores, q);
      }
    }
  }

  const MaxMenusShown: nat := 10

  /** `searchResults.menus.slice(0, 10)`: the first ten hits at most. */
  function DisplayedMenus(r: Results): (d: seq<MenuHit>)
    ensures |d| == Min(MaxMenusShown, |r.menus|)
    ensures d <= r.menus
  {
    Take(r.menus, MaxMenusShown)
  }

  /** The overlay's input field, the query last submitted, and the history
      store it writes to. */
  datatype InputState = InputState(input: string, submitted: string, history: seq<string>)

  /** On open the field holds the filter store's query and nothing is
      submitted. */
  function Open(searchQuery: string, history: seq<string>): (s: InputState)
    ensures s.input == searchQuery && s.submitted == "" && s.history == history
    ensures forall stores :: SearchResults(stores, s.submitted) == Results([], [], [])
  {
    InputState(searchQuery, "", history)
  }

  /** `handleSubmit`: a blank field does nothing; otherwise the trimmed text
      is recorded in the history and becomes the submitted query. */
  function Submit(s: InputState): (r: InputState)
    ensures AllWhitespace(s.input) ==> r == s
    ensures !AllWhitespace(s.input) ==>
              && r.submitted == Trim(s.input)
              && r.history == SearchHistoryStore.AddSearch(s.history, s.input)
              && r.history[0] == r.submitted
              && r.input == s.input
  {
    var t := Trim(s.input);
    TrimEmptyIffBlank(s.input);
    if t == "" then s
    else
      SearchHistoryStore.AddSearchTrimmed(s.history, s.input);
      s.(history := SearchHistoryStore.AddSearch(s.history, t), submitted := t)
  }

  /** After a submit the buckets are those of the field's own text: trimming
      the text first changes nothing. */
  lemma SubmitSearchesInput(stores: seq<Store>, s: InputState)
    requires !AllWhitespace(s.input)
    ensures SearchResults(stores, Submit(s).submitted) == SearchResults(stores, s.input)
  {
    TrimIdempotent(s.input);
    TrimEmptyIffBlank(Trim(s.input));
  }

  /** The clear button inside the field, rendered only while the field is
      not empty: both the field and the submitted query become empty, so no
      results are shown. */
  function Clear(s: InputState): (r: InputState)
    requires s.input != ""
    ensures r.input == "" && r.submitted == "" && r.history == s.history
    ensures forall stores :: !HasResults(SearchResults(stores, r.submitted))
  {
    s.(input := "", submitted := "")
  }
}
