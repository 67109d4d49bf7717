/** `ItemMapper` of the earlier (`src`) tree: field-for-field conversions
    between the item entity and its transfer objects. */
module SrcItemMapper {
  import opened Base
  import opened Domain
  import opened SrcItemModel

  /** `toItem(itemDto, ownerId)`: the DTO's fields, owned by `ownerId`. */
  function ToItem(dto: ItemDto, ownerId: int): Item
  {
    Item(dto.id, dto.name, dto.description, ownerId, dto.available)
  }

  /** `toDto(item)`: the item's public fields; mapping back with the item's
      owner gives the item again. */
  function ToDto(item: Item): (d: ItemDto)
    ensures ToItem(d, item.ownerId) == item
  {
    ItemDto(item.id, item.name, item.description, item.available)
  }

  /** A DTO survives the trip through the entity, whatever the owner. */
  lemma DtoRoundTrip(dto: ItemDto, ownerId: int)
    ensures ToItem(dto, ownerId).ownerId == ownerId
    ensures ToDto(ToItem(dto, ownerId)) == dto
  {
  }

  /** `toWithBookingsDto(item, last, next, comments)`: the fields `toDto`
      exposes, with the given bookings and comments passed through. */
  function ToWithBookingsDto(item: Item, last: Option<Booking>, next: Option<Booking>, comments: seq<Comment>): (r: ItemWithBookingsDto)
    ensures var d := ToDto(item);
      r.id == d.id && r.name == d.name && r.description == d.description && r.available == d.available
    ensures r.lastBooking == last && r.nextBooking == next && r.comments == comments
  {
    ItemWithBookingsDto(item.id, item.name, item.description, item.available, last, next, comments)
  }
}
