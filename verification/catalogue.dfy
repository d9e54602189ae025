/** What a catalogue search returns. The HTTP request itself is not modelled: a
    search is an oracle value, `None` when the request failed. */
module Catalogue {

  /** One search result. Fields missing from the service's record are taken to
      hold their defaults ("" / false / 0) already. */
  datatype Item = Item(
    title: string,
    firstCreatorName: string,
    isOwned: bool,
    ownedCopies: int,
    isAvailable: bool,
    availableCopies: int)

  datatype Response = Response(totalItems: int, items: seq<Item>)
}
