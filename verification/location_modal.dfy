/** The address modal of the home screen (components/home/LocationModal.tsx):
    three views, a search field, the address picked so far and whether the
    modal is registering the home or the work address. Geolocation is a
    browser call, so its successful result enters as a parameter; coordinates
    are not modelled. */
module LocationModal {
  import opened Types
  import opened Text
  import SavedLocationStore

  datatype View = Main | Search | Map

  datatype RegisterType = Home | Work

  /** The picked address: its display name and its address line. */
  datatype Address = Address(name: string, address: string)

  datatype Modal = Modal(
    view: View,
    query: string,
    selected: Option<Address>,
    registerType: Option<RegisterType>)

  const SearchPrefix: string := "서울특별시 "
  const CurrentLocationName: string := "현재 위치"

  /** The effect run when `isOpen` becomes true: back to a fresh main view. */
  function Open(): (m: Modal)
    ensures m.view == Main && m.query == "" && m.selected == None && m.registerType == None
  {
    Modal(Main, "", None, None)
  }

  /** What every reachable state satisfies: the map view always has an
      address to show, and the main view is never in registration mode. */
  predicate Valid(m: Modal) {
    && (m.view == Map ==> m.selected.Some?)
    && (m.view == Main ==> m.registerType == None)
  }

  /** The search field's `onChange`. */
  function SetQuery(m: Modal, q: string): (r: Modal)
    ensures r.query == q && r.(query := m.query) == m
  {
    m.(query := q)
  }

  /** `handleSearchSubmit`: a blank field does nothing; otherwise the
      untrimmed text becomes the picked address, prefixed with the city, and
      the map view opens. */
  function SearchSubmit(m: Modal): (r: Modal)
    ensures AllWhitespace(m.query) ==> r == m
    ensures !AllWhitespace(m.query) ==>
              && r.view == Map
              && r.selected == Some(Address(m.query, SearchPrefix + m.query))
              && r.query == m.query && r.registerType == m.registerType
  {
    TrimEmptyIffBlank(m.query);
    if Trim(m.query) == "" then m
    else m.(selected := Some(Address(m.query, SearchPrefix + m.query)), view := Map)
  }

  /** The geolocation success callback: the current position becomes the
      picked address and the map view opens. */
  function LocationFound(m: Modal, coordinates: string): (r: Modal)
    ensures r.view == Map && r.selected == Some(Address(CurrentLocationName, coordinates))
    ensures r.registerType == m.registerType && r.query == m.query
  {
    m.(selected := Some(Address(CurrentLocationName, coordinates)), view := Map)
  }

  /** The result of `handleConfirmAddress`: the saved slots afterwards, the
      address passed to `onSelectLocation` (if any) and whether `onClose`
      was called. */
  datatype Outcome = Outcome(saved: SavedLocationStore.SavedLocations, emitted: Option<string>, closed: bool)

  /** `handleConfirmAddress`: without a picked address nothing happens;
      otherwise the address is written to the slot being registered, if any,
      emitted, and the modal closes. */
  function Confirm(m: Modal, saved: SavedLocationStore.SavedLocations): (o: Outcome)
    ensures m.selected == None ==> o == Outcome(saved, None, false)
    ensures m.selected.Some? ==>
              && o.emitted == Some(m.selected.value.address) && o.closed
              && (o.saved.home == if m.registerType == Some(Home) then Some(m.selected.value.address) else saved.home)
              && (o.saved.work == if m.registerType == Some(Work) then Some(m.selected.value.address) else saved.work)
  {
    match m.selected
    case None => Outcome(saved, None, false)
    case Some(a) =>
      var s :=
        if m.registerType == Some(Home) then SavedLocationStore.SetHome(saved, a.address)
        else if m.registerType == Some(Work) then SavedLocationStore.SetWork(saved, a.address)
        else saved;
      Outcome(s, Some(a.address), true)
  }

  /** `handleStartRegister(type)`: the home and work buttons of the main view. */
  function StartRegister(m: Modal, t: RegisterType): (r: Modal)
    ensures r.view == Search && r.registerType == Some(t)
    ensures r.query == m.query && r.selected == m.selected
  {
    m.(registerType := Some(t), view := Search)
  }

  /** `handleBack`: map goes back to search keeping the registration,
      search goes back to main dropping it, main stays. */
  function Back(m: Modal): (r: Modal)
    ensures m.view == Map ==> r == m.(view := Search)
    ensures m.view == Search ==> r == m.(view := Main, registerType := None)
    ensures m.view == Main ==> r == m
  {
    match m.view
    case Map => m.(view := Search)
    case Search => m.(view := Main, registerType := None)
    case Main => m
  }

  /** The main view's search button: a plain search, not a registration. */
  function MainSearch(m: Modal): (r: Modal)
    ensures r.view == Search && r.registerType == None
    ensures r.query == m.query && r.selected == m.selected
  {
    m.(registerType := None, view := Search)
  }

  /** The main view's current-location button, before the position arrives. */
  function MainCurrentLocation(m: Modal): (r: Modal)
    ensures r.registerType == None && r.(registerType := m.registerType) == m
  {
    m.(registerType := None)
  }

  /** The map view's edit button: back to search, registration kept. */
  function MapEdit(m: Modal): (r: Modal)
    ensures r.view == Search && r.(view := m.view) == m
  {
    m.(view := Search)
  }

  /** The confirm button's label names the slot being registered. */
  function ConfirmLabel(m: Modal): (text: string)
    ensures text == "집으로 설정하기" <==> m.registerType == Some(Home)
    ensures text == "회사로 설정하기" <==> m.registerType == Some(Work)
    ensures text == "설정하기" <==> m.registerType == None
  {
    match m.registerType
    case Some(Home) => "집으로 설정하기"
    case Some(Work) => "회사로 설정하기"
    case None => "설정하기"
  }

  /** One user action on an open modal. */
  datatype Action =
    | Type(q: string)
    | SubmitSearch
    | Found(coordinates: string)
    | Register(t: RegisterType)
    | GoBack
    | SearchFromMain
    | LocateFromMain
    | Edit

  function Step(m: Modal, a: Action): Modal {
    match a
    case Type(q) => SetQuery(m, q)
    case SubmitSearch => SearchSubmit(m)
    case Found(c) => LocationFound(m, c)
    case Register(t) => StartRegister(m, t)
    case GoBack => Back(m)
    case SearchFromMain => MainSearch(m)
    case LocateFromMain => MainCurrentLocation(m)
    case Edit => MapEdit(m)
  }

  /** The buttons each view offers; an action is only possible from a view
      that shows its control. */
  predicate Enabled(m: Modal, a: Action) {
    match a
    case Type(_) => m.view == Search
    case SubmitSearch => m.view == Search
    case Found(_) => m.view == Main || m.view == Search
    case Register(_) => m.view == Main
    case GoBack => m.view == Search || m.view == Map
    case SearchFromMain => m.view == Main
    case LocateFromMain => m.view == Main
    case Edit => m.view == Map
  }

  /** Every enabled action keeps the modal valid. */
  lemma StepPreservesValid(m: Modal, a: Action)
    requires Valid(m) && Enabled(m, a)
    ensures Valid(Step(m, a))
  {
  }

  function Run(m: Modal, actions: seq<Action>): Modal
    decreases |actions|
  {
    if |actions| == 0 then m else Run(Step(m, actions[0]), actions[1..])
  }

  predicate AllEnabled(m: Modal, actions: seq<Action>)
    decreases |actions|
  {
    |actions| == 0 || (Enabled(m, actions[0]) && AllEnabled(Step(m, actions[0]), actions[1..]))
  }

  /** From opening on, any sequence of enabled actions reaches a valid state,
      so confirming from the map view always saves, emits and closes. */
  lemma {:induction false} ReachableValid(actions: seq<Action>, saved: SavedLocationStore.SavedLocations)
    requires AllEnabled(Open(), actions)
    ensures Valid(Run(Open(), actions))
    ensures Run(Open(), actions).view == Map ==> Confirm(Run(Open(), actions), saved).closed
  {
    RunPreservesValid(Open(), actions);
  }

  lemma {:induction false} RunPreservesValid(m: Modal, actions: seq<Action>)
    requires Valid(m) && AllEnabled(m, actions)
    ensures Valid(Run(m, actions))
    decreases |actions|
  {
    if |actions| > 0 {
      StepPreservesValid(m, actions[0]);
      RunPreservesValid(Step(m, actions[0]), actions[1..]);
    }
  }

  /** Registering a home address end to end: open, press home, type a
      non-blank address, submit and confirm. The home slot receives the
      prefixed address, the work slot is untouched and the address is
      emitted. */
  lemma RegisterHome(q: string, saved: SavedLocationStore.SavedLocations)
    requires !AllWhitespace(q)
    ensures var o := Confirm(Run(Open(), [Register(Home), Type(q), SubmitSearch]), saved);
            && o.saved == SavedLocationStore.SetHome(saved, SearchPrefix + q)
            && o.emitted == Some(SearchPrefix + q) && o.closed
  {
    var acts := [Register(Home), Type(q), SubmitSearch];
    var m1 := StartRegister(Open(), Home);
    var m2 := SetQuery(m1, q);
    assert acts[1..] == [Type(q), SubmitSearch];
    assert acts[1..][1..] == [SubmitSearch];
    assert Run(SearchSubmit(m2), []) == SearchSubmit(m2);
    assert Run(m2, [SubmitSearch]) == SearchSubmit(m2);
    assert Run(m1, [Type(q), SubmitSearch]) == SearchSubmit(m2);
    assert Run(Open(), acts) == SearchSubmit(m2);
  }
}
