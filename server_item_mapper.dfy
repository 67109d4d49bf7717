/** `ItemMapper` of the later (`server`) tree: conversions between the item
    entity and its transfer objects, with the nullable request reduced to its
    id on the way out. */
module ServerItemMapper {
  import opened Base
  import opened Domain
  import opened ServerItemModel

  /** The id the DTO carries for an item's request: null without one. */
  function RequestIdOf(request: Option<ItemRequest>): Option<int>
  {
    if request.Some? then Some(request.value.id) else None
  }

  /** `toItem(itemDto, ownerId, request)`: the DTO's fields, owned by
      `ownerId` and answering `request`. */
  function ToItem(dto: ItemDto, ownerId: int, request: Option<ItemRequest>): Item
  {
    Item(dto.id, dto.name, dto.description, ownerId, dto.available, request)
  }

  /** `toDto(item)`: the item's public fields and its request's id; mapping
      back with the item's owner and request gives the item again. */
  function ToDto(item: Item): (d: ItemDto)
    ensures d.requestId == RequestIdOf(item.request)
    ensures ToItem(d, item.ownerId, item.request) == item
  {
    ItemDto(item.id, item.name, item.description, item.available,
            if item.request != None then Some(item.request.value.id) else None)
  }

  /** A DTO survives the trip through the entity except for its request id,
      which the trip replaces by the id of the request passed in. */
  lemma DtoRoundTrip(dto: ItemDto, ownerId: int, request: Option<ItemRequest>)
    ensures ToItem(dto, ownerId, request).ownerId == ownerId
    ensures ToItem(dto, ownerId, request).request == request
    ensures ToDto(ToItem(dto, ownerId, request)) == dto.(requestId := RequestIdOf(request))
    ensures ToDto(ToItem(dto, ownerId, request)) == dto <==> dto.requestId == RequestIdOf(request)
  {
  }

  /** `toWithBookingsDto(item, last, next, comments)`: the fields `toDto`
      exposes other than the request id, with the given bookings and
      comments passed through. */
  function ToWithBookingsDto(item: Item, last: Option<Booking>, next: Option<Booking>, comments: seq<Comment>): (r: ItemWithBookingsDto)
    ensures var d := ToDto(item);
      r.id == d.id && r.name == d.name && r.description == d.description && r.available == d.available
    ensures r.lastBooking == last && r.nextBooking == next && r.comments == comments
  {
    ItemWithBookingsDto(item.id, item.name, item.description, item.available, last, next, comments)
  }
}
