/** The item, item-request and item transfer types of the later (`server`)
    tree, and the item repository's lookups. Every boxed Java field is
    nullable, so it is an Option here; a row of the items table has its
    non-null columns set. */
module ServerItemModel {
  import opened Base
  import opened Seqs

  /** `ItemRequest`: a user's posted ask for an item, stamped when made. */
  datatype ItemRequest = ItemRequest(id: int, description: string, requestorId: int, created: int)

  /** `Item`: id, name, description, owner, availability and the request it
      answers, if any. */
  datatype Item = Item(
    id: Option<int>,
    name: Option<string>,
    description: Option<string>,
    ownerId: int,
    available: Option<bool>,
    request: Option<ItemRequest>)

  /** `ItemDto`: the public fields and the id of the answered request. */
  datatype ItemDto = ItemDto(
    id: Option<int>,
    name: Option<string>,
    description: Option<string>,
    available: Option<bool>,
    requestId: Option<int>)

  /** A row of the items table: an id assigned on save and the columns
      declared `nullable = false` set. */
  predicate Persisted(i: Item)
  {
    i.id.Some? && i.name.Some? && i.description.Some? && i.available.Some?
  }

  /** `ItemRepository.findById`: the row with that id, if any. */
  function FindById(items: seq<Item>, id: int): (r: Option<Item>)
    ensures r.Some? ==> r.value in items && r.value.id == Some(id)
    ensures r.None? <==> forall i :: i in items ==> i.id != Some(id)
  {
    FindFirst(items, (i: Item) => i.id == Some(id))
  }

  /** `ItemRepository.findByOwnerId`: the owner's rows, in table order. */
  function FindByOwnerId(items: seq<Item>, ownerId: int): (r: seq<Item>)
    ensures SubseqOf(r, items)
    ensures forall i :: i in r <==> i in items && i.ownerId == ownerId
  {
    Filter(items, (i: Item) => i.ownerId == ownerId)
  }

  /** `ItemRepository.findByRequestId`: the rows answering that request, in
      table order. */
  function FindByRequestId(items: seq<Item>, requestId: int): (r: seq<Item>)
    ensures SubseqOf(r, items)
    ensures forall i :: i in r <==> i in items && i.request.Some? && i.request.value.id == requestId
  {
    Filter(items, (i: Item) => i.request.Some? && i.request.value.id == requestId)
  }

  /** `ItemRepository.searchAvailableItems(text)`: the available rows that
      `matches` the text, in table order. The case-insensitive LIKE is left
      to the `matches` parameter. */
  function SearchAvailableItems(items: seq<Item>, text: string, matches: (string, Item) -> bool): (r: seq<Item>)
    ensures forall i :: i in r <==> i in items && i.available == Some(true) && matches(text, i)
  {
    Filter(items, (i: Item) => i.available == Some(true) && matches(text, i))
  }
}
