/** The item service of the later (`server`) tree: adding and patching
    items, the owner's listing joined with bookings and comments, a single
    item with owner-only booking details, search, and comments by past
    bookers. */
module ServerItemService {
  import opened Base
  import opened Seqs
  import opened Domain
  import opened BookingRepository
  import opened ItemEnrichment
  import opened ServerItemModel
  import opened ServerItemMapper
  import ItemRequestRepository

  /** `checkId`: the stored item with that id; an unknown id is a
      Validation error here, not NotFound. */
  function CheckId(items: seq<Item>, itemId: int): (r: Result<Item>)
    ensures r.Failure? <==> forall i :: i in items ==> i.id != Some(itemId)
    ensures r.Failure? ==> r.error == Validation
    ensures r.Success? ==> r.value in items && r.value.id == Some(itemId)
  {
    match FindById(items, itemId)
    case None => Failure(Validation)
    case Some(item) => Success(item)
  }

  /** `update`: the patch replaces the name and the description where they
      are non-null and not blank, and availability where it is non-null;
      the id, the owner and the request stay. */
  function Update(item: Item, dto: ItemDto): (r: Item)
    ensures r.id == item.id && r.ownerId == item.ownerId && r.request == item.request
    ensures r.name == (if Present(dto.name) then dto.name else item.name)
    ensures r.description == (if Present(dto.description) then dto.description else item.description)
    ensures r.available == (if dto.available.Some? then dto.available else item.available)
  {
    item.(name := if Present(dto.name) then dto.name else item.name,
          description := if Present(dto.description) then dto.description else item.description,
          available := if dto.available.Some? then dto.available else item.available)
  }

  /** A patch applied twice is applied once, an empty patch changes
      nothing, and a patched row is still a row. */
  lemma UpdateProperties(item: Item, dto: ItemDto)
    ensures Update(Update(item, dto), dto) == Update(item, dto)
    ensures !Present(dto.name) && !Present(dto.description) && dto.available.None? ==> Update(item, dto) == item
    ensures Persisted(item) ==> Persisted(Update(item, dto))
  {
  }

  /** `items.stream().map(Item::getId)`. */
  function IdsOf(items: seq<Item>): (r: seq<int>)
    requires forall i :: i in items ==> Persisted(i)
    ensures |r| == |items|
    ensures forall k :: 0 <= k < |items| ==> items[k].id == Some(r[k])
  {
    if items == [] then []
    else
      assert items[0] in items && Persisted(items[0]);
      [items[0].id.value] + IdsOf(items[1..])
  }

  /** The entry the listing builds for one item from the joined batches. */
  function Entry(item: Item, j: Joins): ItemWithBookingsDto
  {
    ItemWithBookingsDto(item.id, item.name, item.description, item.available,
                        LookupByItem(j.lastMap, item.id), LookupByItem(j.nextMap, item.id),
                        CommentsOrEmpty(j.groups, item.id))
  }

  /** `e` is the listing entry `item` should get: its fields copied, its
      last and next booking, and exactly its comments. */
  ghost predicate IsListingEntry(e: ItemWithBookingsDto, item: Item, bookings: seq<Booking>, comments: seq<Comment>, now: int)
  {
    && item.id.Some?
    && e.id == item.id && e.name == item.name && e.description == item.description && e.available == item.available
    && IsLastBookingOf(bookings, item.id.value, now, e.lastBooking)
    && IsNextBookingOf(bookings, item.id.value, now, e.nextBooking)
    && e.comments == CommentsOf(comments, item.id.value)
  }

  /** `getItemsByOwner`: NotFound for an unknown owner; an empty list when the
      owner has no items; IllegalState when a batch query returns two
      bookings of one item; otherwise one entry per owned item, in the order
      of the owner's items, each with its last and next booking and its
      comments. */
  function GetItemsByOwner(users: map<int, User>, items: seq<Item>, bookings: seq<Booking>, comments: seq<Comment>, ownerId: int, now: int)
    : (r: Result<seq<ItemWithBookingsDto>>)
    requires forall i :: i in items ==> Persisted(i)
    ensures ownerId !in users ==> r == Failure(NotFound)
    ensures ownerId in users && FindByOwnerId(items, ownerId) == [] ==> r == Success([])
    ensures ownerId in users && FindByOwnerId(items, ownerId) != [] ==>
              (r.Failure? <==> !BatchesKeyed(bookings, IdsOf(FindByOwnerId(items, ownerId)), now))
    ensures r.Failure? ==> r.error == NotFound || r.error == IllegalState
    ensures r.Success? ==> |r.value| == |FindByOwnerId(items, ownerId)|
    ensures r.Success? ==> forall k :: 0 <= k < |r.value| ==>
                             IsListingEntry(r.value[k], FindByOwnerId(items, ownerId)[k], bookings, comments, now)
  {
    if ownerId !in users then Failure(NotFound)
    else
      var owned := FindByOwnerId(items, ownerId);
      if owned == [] then Success([])
      else
        var ids := IdsOf(owned);
        match JoinForItems(bookings, comments, ids, now)
        case Failure(e) => Failure(e)
        case Success(j) =>
          var entries := seq(|owned|, k requires 0 <= k < |owned| => Entry(owned[k], j));
          assert forall k :: 0 <= k < |entries| ==> IsListingEntry(entries[k], owned[k], bookings, comments, now) by {
            forall k | 0 <= k < |entries| ensures IsListingEntry(entries[k], owned[k], bookings, comments, now) {
              assert ids[k] in ids;
            }
          }
          Success(entries)
  }

  /** `getItemById`: NotFound for an unknown caller, then Validation for an
      unknown item; otherwise the item with its comments, and with its last
      and next booking for its owner only (null for anyone else). */
  function GetItemById(users: map<int, User>, items: seq<Item>, bookings: seq<Booking>, comments: seq<Comment>, itemId: int, userId: int, now: int)
    : (r: Result<ItemWithBookingsDto>)
    ensures userId !in users ==> r == Failure(NotFound)
    ensures userId in users && (forall i :: i in items ==> i.id != Some(itemId)) ==> r == Failure(Validation)
    ensures r.Failure? ==> r.error == NotFound || r.error == Validation
    ensures r.Success? <==> userId in users && CheckId(items, itemId).Success?
    ensures r.Success? ==>
              var item := CheckId(items, itemId).value;
              && r.value.id == Some(itemId) && r.value.name == item.name
              && r.value.description == item.description && r.value.available == item.available
              && r.value.comments == CommentsOf(comments, itemId)
    ensures r.Success? && CheckId(items, itemId).value.ownerId != userId ==>
              r.value.lastBooking.None? && r.value.nextBooking.None?
    ensures r.Success? && CheckId(items, itemId).value.ownerId == userId ==>
              IsLastBookingOf(bookings, itemId, now, r.value.lastBooking) &&
              IsNextBookingOf(bookings, itemId, now, r.value.nextBooking)
  {
    if userId !in users then Failure(NotFound)
    else match CheckId(items, itemId)
      case Failure(e) => Failure(e)
      case Success(item) =>
        var isOwner := item.ownerId == userId;
        var last := if isOwner then FindLastBooking(bookings, itemId, Approved, now) else None;
        var next := if isOwner then FindNextBooking(bookings, itemId, now) else None;
        SingleQueriesFillSlots(bookings, itemId, now);
        Success(ToWithBookingsDto(item, last, next, CommentsOf(comments, itemId)))
  }

  /** `searchItems`: NotFound for an unknown caller; otherwise the available
      items that match the text, as DTOs, in table order. */
  function SearchItems(users: map<int, User>, items: seq<Item>, text: string, userId: int, matches: (string, Item) -> bool)
    : (r: Result<seq<ItemDto>>)
    ensures userId !in users ==> r == Failure(NotFound)
    ensures r.Failure? ==> r.error == NotFound
    ensures r.Success? <==> userId in users
    ensures r.Success? ==>
              forall d :: d in r.value <==> exists i :: i in items && i.available == Some(true) && matches(text, i) && d == ToDto(i)
  {
    if userId !in users then Failure(NotFound)
    else
      var found := SearchAvailableItems(items, text, matches);
      var dtos := seq(|found|, k requires 0 <= k < |found| => ToDto(found[k]));
      assert forall d :: d in dtos <==> exists i :: i in found && d == ToDto(i) by {
        forall d ensures d in dtos <==> exists i :: i in found && d == ToDto(i) {
          if d in dtos {
            var k :| 0 <= k < |dtos| && dtos[k] == d;
            assert found[k] in found;
          }
          if exists i :: i in found && d == ToDto(i) {
            var i :| i in found && d == ToDto(i);
            var k :| 0 <= k < |found| && found[k] == i;
            assert dtos[k] == d;
          }
        }
      }
      Success(dtos)
  }

  /** The request an item DTO asks to answer: none without a request id. */
  function RequestFor(requests: seq<ItemRequest>, dto: ItemDto): Option<ItemRequest>
  {
    if dto.requestId.Some? then ItemRequestRepository.FindById(requests, dto.requestId.value) else None
  }

  /** The items and comments tables with the identity counters that number
      new rows. */
  class ItemStore {
    var items: seq<Item>
    var comments: seq<Comment>
    var nextItemId: int
    var nextCommentId: int

    /** Every item is a complete row; item ids and comment ids are positive,
        below their counters, and unique. */
    ghost predicate Valid()
      reads this
    {
      && nextItemId >= 1 && nextCommentId >= 1
      && (forall k :: 0 <= k < |items| ==> Persisted(items[k]) && 1 <= items[k].id.value < nextItemId)
      && (forall i, j :: 0 <= i < j < |items| ==> items[i].id != items[j].id)
      && (forall k :: 0 <= k < |comments| ==> 1 <= comments[k].id < nextCommentId)
      && (forall i, j :: 0 <= i < j < |comments| ==> comments[i].id != comments[j].id)
    }

    /** Empty tables. */
    constructor ()
      ensures Valid()
      ensures items == [] && comments == [] && nextItemId == 1 && nextCommentId == 1
    {
      items := [];
      comments := [];
      nextItemId := 1;
      nextCommentId := 1;
    }

    /** `addItem`: NotFound for an unknown owner, then NotFound for a request
        id that names no request; otherwise stores the DTO's fields under a
        fresh id, owned by the caller and answering the request found, and
        returns the stored item's DTO, whose request id is the one asked
        for. A failure changes nothing. */
    method AddItem(users: map<int, User>, requests: seq<ItemRequest>, dto: ItemDto, ownerId: int) returns (r: Result<ItemDto>)
      requires Valid()
      requires dto.name.Some? && dto.description.Some? && dto.available.Some?
      modifies this
      ensures Valid()
      ensures comments == old(comments) && nextCommentId == old(nextCommentId)
      ensures ownerId !in users ==> r == Failure(NotFound)
      ensures dto.requestId.Some? && ItemRequestRepository.FindById(requests, dto.requestId.value).None? ==> r == Failure(NotFound)
      ensures r.Success? <==>
                ownerId in users && (dto.requestId.None? || ItemRequestRepository.FindById(requests, dto.requestId.value).Some?)
      ensures r.Failure? ==> r.error == NotFound && items == old(items) && nextItemId == old(nextItemId)
      ensures r.Success? ==>
                var saved := ToItem(dto, ownerId, RequestFor(requests, dto)).(id := Some(old(nextItemId)));
                && items == old(items) + [saved]
                && nextItemId == old(nextItemId) + 1
                && r.value == ToDto(saved)
                && r.value.requestId == dto.requestId
    {
      if ownerId !in users {
        return Failure(NotFound);
      }
      var request := RequestFor(requests, dto);
      if dto.requestId.Some? && request.None? {
        return Failure(NotFound);
      }
      var saved := ToItem(dto, ownerId, request).(id := Some(nextItemId));
      items := items + [saved];
      nextItemId := nextItemId + 1;
      r := Success(ToDto(saved));
    }

    /** `updateItem`: Validation for an unknown item, then Forbidden for
        anyone but its owner; otherwise the patched item replaces the stored
        one in place. A failure changes nothing. */
    method UpdateItem(itemId: int, dto: ItemDto, ownerId: int) returns (r: Result<ItemDto>)
      requires Valid()
      modifies this
      ensures Valid()
      ensures comments == old(comments) && nextItemId == old(nextItemId) && nextCommentId == old(nextCommentId)
      ensures r == Failure(Validation) <==> forall k :: 0 <= k < |old(items)| ==> old(items)[k].id != Some(itemId)
      ensures r == Failure(Forbidden) <==>
                exists k :: 0 <= k < |old(items)| && old(items)[k].id == Some(itemId) && old(items)[k].ownerId != ownerId
      ensures r.Failure? ==> r.error == Validation || r.error == Forbidden
      ensures r.Success? <==> CheckId(old(items), itemId).Success? && CheckId(old(items), itemId).value.ownerId == ownerId
      ensures r.Failure? ==> items == old(items)
      ensures r.Success? ==>
                exists k :: 0 <= k < |old(items)| && old(items)[k].id == Some(itemId) && old(items)[k].ownerId == ownerId
                            && items == old(items)[k := Update(old(items)[k], dto)]
                            && r.value == ToDto(items[k])
    {
      var idx := IndexOf(items, (i: Item) => i.id == Some(itemId));
      if idx.None? {
        return Failure(Validation);
      }
      var k := idx.value;
      if items[k].ownerId != ownerId {
        return Failure(Forbidden);
      }
      UpdateProperties(items[k], dto);
      items := items[k := Update(items[k], dto)];
      r := Success(ToDto(items[k]));
    }

    /** `addComment`: Validation for an unknown item, then NotFound for an
        unknown author, then Validation unless the author has an APPROVED
        booking of the item that ended before `now`; otherwise stores the
        comment, stamped `now`, under a fresh id. A failure changes
        nothing. */
    method AddComment(users: map<int, User>, bookings: seq<Booking>, itemId: int, userId: int, text: string, now: int)
      returns (r: Result<Comment>)
      requires Valid()
      modifies this
      ensures Valid()
      ensures items == old(items) && nextItemId == old(nextItemId)
      ensures (forall i :: i in items ==> i.id != Some(itemId)) ==> r == Failure(Validation)
      ensures (exists i :: i in items && i.id == Some(itemId)) && userId !in users ==> r == Failure(NotFound)
      ensures && (exists i :: i in items && i.id == Some(itemId)) && userId in users
              && !ExistsByBookerIdAndItemIdAndEndBeforeAndStatus(bookings, userId, itemId, now, Approved)
              ==> r == Failure(Validation)
      ensures r.Success? <==>
                && (exists i :: i in items && i.id == Some(itemId))
                && userId in users
                && ExistsByBookerIdAndItemIdAndEndBeforeAndStatus(bookings, userId, itemId, now, Approved)
      ensures r.Failure? ==> comments == old(comments) && nextCommentId == old(nextCommentId)
      ensures r.Failure? ==> r.error == Validation || r.error == NotFound
      ensures r.Success? ==>
                && r.value == Comment(old(nextCommentId), text, itemId, userId, now)
                && comments == old(comments) + [r.value]
                && nextCommentId == old(nextCommentId) + 1
    {
      var item := CheckId(items, itemId);
      if item.Failure? {
        return Failure(item.error);
      }
      if userId !in users {
        return Failure(NotFound);
      }
      if !ExistsByBookerIdAndItemIdAndEndBeforeAndStatus(bookings, userId, itemId, now, Approved) {
        return Failure(Validation);
      }
      var c := Comment(nextCommentId, text, item.value.id.value, userId, now);
      comments := comments + [c];
      nextCommentId := nextCommentId + 1;
      r := Success(c);
    }
  }
}
