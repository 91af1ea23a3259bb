/** The records of types/store.ts and types/filter.ts. JS numbers that the
    fixtures fill with integers (prices, distances in metres, counts) are
    unbounded `int`s. The store card also reads `images`, `availableCount` and
    `pickupTime`, which the Store interface lacks; they are extra fields here.
    Coordinates (floating point, used only by the map widget) are omitted. */
module Types {

  /** A nullable value (`T | null`). */
  datatype Option<T> = None | Some(value: T)

  datatype MenuItem = MenuItem(
    id: string,
    name: string,
    image: string,
    originalPrice: int,
    salePrice: int)

  datatype PickupAvailability = PickupAvailability(today: bool, tomorrow: bool)

  datatype Store = Store(
    id: string,
    name: string,
    address: string,
    menuItems: seq<MenuItem>,
    distance: int,
    isNew: bool,
    reviewCount: int,
    favoriteCount: int,
    notificationCount: int,
    pickupAvailable: PickupAvailability,
    quickPickup: bool,
    parkingAvailable: bool,
    images: seq<string>,
    availableCount: int,
    pickupTime: string)

  datatype Event = Event(id: string, title: string, image: string, link: string)

  datatype PickupDate = Today | Tomorrow

  datatype SortOption = Distance | Reviews | Favorites | Notifications | PriceLow | PriceHigh

  datatype FilterState = FilterState(
    pickupDate: PickupDate,
    quickPickup: bool,
    parkingAvailable: bool,
    sortBy: SortOption,
    searchQuery: string,
    location: string)
}
