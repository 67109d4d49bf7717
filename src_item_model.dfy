/** The item entity and transfer object of the earlier (`src`) tree, and the
    item repository's lookups. Every boxed Java field is nullable, so it is
    an Option here; a row of the items table has its non-null columns set. */
module SrcItemModel {
  import opened Base
  import opened Seqs

  /** `Item`: id, name, description, owner and availability. */
  datatype Item = Item(
    id: Option<int>,
    name: Option<string>,
    description: Option<string>,
    ownerId: int,
    available: Option<bool>)

  /** `ItemDto`: the fields a client sends and receives; null fields of a
      patch are the ones left unchanged. */
  datatype ItemDto = ItemDto(
    id: Option<int>,
    name: Option<string>,
    description: Option<string>,
    available: Option<bool>)

  /** A row of the items table: an id assigned on save and the columns
      declared `nullable = false` set. */
  predicate Persisted(i: Item)
  {
    i.id.Some? && i.name.Some? && i.description.Some? && i.available.Some?
  }

  /** `ItemRepository.findById`: the row with that id, if any. */
  function FindById(items: seq<Item>, id: int): (r: Option<Item>)
    ensures r.Some? ==> r.value in items && r.value.id == Some(id)
    ensures r.None? <==> forall i :: i in items ==> i.id != Some(id)
  {
    FindFirst(items, (i: Item) => i.id == Some(id))
  }

  /** `ItemRepository.findByOwnerId`: the owner's rows, in table order. */
  function FindByOwnerId(items: seq<Item>, ownerId: int): (r: seq<Item>)
    ensures SubseqOf(r, items)
    ensures forall i :: i in r <==> i in items && i.ownerId == ownerId
  {
    Filter(items, (i: Item) => i.ownerId == ownerId)
  }

  /** `ItemRepository.searchAvailableItems(text)`: the available rows that
      `matches` the text, in table order. The case-insensitive LIKE is left
      to the `matches` parameter. */
  function SearchAvailableItems(items: seq<Item>, text: string, matches: (string, Item) -> bool): (r: seq<Item>)
    ensures forall i :: i in r <==> i in items && i.available == Some(true) && matches(text, i)
  {
    Filter(items, (i: Item) => i.available == Some(true) && matches(text, i))
  }
}
