/** The saved home and work addresses (store/useSavedLocationStore.ts). */
module SavedLocationStore {
  import opened Types

  const DefaultHome: string := "서울 강남구"

  datatype SavedLocations = SavedLocations(home: Option<string>, work: Option<string>)

  /** The initial slots: home preset, work empty. */
  function Initial(): (s: SavedLocations)
    ensures s.home == Some(DefaultHome) && s.work == None
  {
    SavedLocations(Some(DefaultHome), None)
  }

  function SetHome(s: SavedLocations, location: string): (r: SavedLocations)
    ensures r.home == Some(location) && r.work == s.work
  {
    s.(home := Some(location))
  }

  function SetWork(s: SavedLocations, location: string): (r: SavedLocations)
    ensures r.work == Some(location) && r.home == s.home
  {
    s.(work := Some(location))
  }

  function ClearHome(s: SavedLocations): (r: SavedLocations)
    ensures r.home == None && r.work == s.work
  {
    s.(home := None)
  }

  function ClearWork(s: SavedLocations): (r: SavedLocations)
    ensures r.work == None && r.home == s.home
  {
    s.(work := None)
  }

  /** The two slots are independent: writes to different slots commute, and
      a later write to a slot overrides an earlier one. */
  lemma SlotsIndependent(s: SavedLocations, h: string, w: string, h2: string)
    ensures SetWork(SetHome(s, h), w) == SetHome(SetWork(s, w), h)
    ensures ClearWork(SetHome(s, h)) == SetHome(ClearWork(s), h)
    ensures SetHome(SetHome(s, h), h2) == SetHome(s, h2)
    ensures ClearHome(SetHome(s, h)) == ClearHome(s)
  {
  }
}
