/** The item service of the earlier (`src`) tree: the same operations as the
    later tree, behind explicit checks that ids are present and positive,
    and with blank search texts and comments cut short. */
module SrcItemService {
  import opened Base
  import opened Seqs
  import opened Domain
  import opened BookingRepository
  import opened ItemEnrichment
  import opened SrcItemModel
  import opened SrcItemMapper

  /** `checkOwner`: Validation for a null or non-positive id before the
      user is looked up; then NotFound for an unknown user. */
  function CheckOwner(users: map<int, User>, ownerId: Option<int>): (r: Result<int>)
    ensures ownerId.None? || ownerId.value < 1 ==> r == Failure(Validation)
    ensures ownerId.Some? && ownerId.value >= 1 && ownerId.value !in users ==> r == Failure(NotFound)
    ensures r.Success? <==> ownerId.Some? && ownerId.value >= 1 && ownerId.value in users
    ensures r.Success? ==> Some(r.value) == ownerId
  {
    if ownerId.None? || ownerId.value < 1 then Failure(Validation)
    else if ownerId.value !in users then Failure(NotFound)
    else Success(ownerId.value)
  }

  /** An id that fails the shape check fails the same way whatever users
      are stored: the check comes before any lookup. */
  lemma CheckOwnerBeforeLookup(users: map<int, User>, others: map<int, User>, ownerId: Option<int>)
    requires ownerId.None? || ownerId.value < 1
    ensures CheckOwner(users, ownerId) == CheckOwner(others, ownerId) == Failure(Validation)
  {
  }

  /** `checkId`: Validation for a null or non-positive id, and Validation
      too for an id no stored item has. */
  function CheckId(items: seq<Item>, itemId: Option<int>): (r: Result<Item>)
    ensures itemId.None? || itemId.value < 1 ==> r == Failure(Validation)
    ensures r.Failure? ==> r.error == Validation
    ensures r.Success? <==> itemId.Some? && itemId.value >= 1 && exists i :: i in items && i.id == itemId
    ensures r.Success? ==> r.value in items && r.value.id == itemId
  {
    if itemId.None? || itemId.value < 1 then Failure(Validation)
    else match FindById(items, itemId.value)
      case None => Failure(Validation)
      case Some(item) => Success(item)
  }

  /** `update`: the patch replaces the name and the description where they
      are non-null and not blank, and availability where it is non-null;
      the id and the owner stay. */
  function Update(item: Item, dto: ItemDto): (r: Item)
    ensures r.id == item.id && r.ownerId == item.ownerId
    ensures r.name == (if Present(dto.name) then dto.name else item.name)
    ensures r.description == (if Present(dto.description) then dto.description else item.description)
    ensures r.available == (if dto.available.Some? then dto.available else item.available)
  {
    item.(name := if Present(dto.name) then dto.name else item.name,
          description := if Present(dto.description) then dto.description else item.description,
          available := if dto.available.Some? then dto.available else item.available)
  }

  /** A patch applied twice is applied once, an empty patch changes
      nothing, and a patched row is still a row. */
  lemma UpdateProperties(item: Item, dto: ItemDto)
    ensures Update(Update(item, dto), dto) == Update(item, dto)
    ensures !Present(dto.name) && !Present(dto.description) && dto.available.None? ==> Update(item, dto) == item
    ensures Persisted(item) ==> Persisted(Update(item, dto))
  {
  }

  /** `items.stream().map(Item::getId)`. */
  function IdsOf(items: seq<Item>): (r: seq<int>)
    requires forall i :: i in items ==> Persisted(i)
    ensures |r| == |items|
    ensures forall k :: 0 <= k < |items| ==> items[k].id == Some(r[k])
  {
    if items == [] then []
    else
      assert items[0] in items && Persisted(items[0]);
      [items[0].id.value] + IdsOf(items[1..])
  }

  /** The entry the listing builds for one item from the joined batches. */
  function Entry(item: Item, j: Joins): ItemWithBookingsDto
  {
    ItemWithBookingsDto(item.id, item.name, item.description, item.available,
                        LookupByItem(j.lastMap, item.id), LookupByItem(j.nextMap, item.id),
                        CommentsOrEmpty(j.groups, item.id))
  }

  /** `e` is the listing entry `item` should get: its fields copied, its
      last and next booking, and exactly its comments. */
  ghost predicate IsListingEntry(e: ItemWithBookingsDto, item: Item, bookings: seq<Booking>, comments: seq<Comment>, now: int)
  {
    && item.id.Some?
    && e.id == item.id && e.name == item.name && e.description == item.description && e.available == item.available
    && IsLastBookingOf(bookings, item.id.value, now, e.lastBooking)
    && IsNextBookingOf(bookings, item.id.value, now, e.nextBooking)
    && e.comments == CommentsOf(comments, item.id.value)
  }

  /** `getItemsByOwner`: the owner check; an empty list when the owner has
      no items; IllegalState when a batch query returns two bookings of one
      item; otherwise one entry per owned item, in the order of the owner's
      items, each with its last and next booking and its comments. */
  function GetItemsByOwner(users: map<int, User>, items: seq<Item>, bookings: seq<Booking>, comments: seq<Comment>, ownerId: Option<int>, now: int)
    : (r: Result<seq<ItemWithBookingsDto>>)
    requires forall i :: i in items ==> Persisted(i)
    ensures CheckOwner(users, ownerId).Failure? ==> r == Failure(CheckOwner(users, ownerId).error)
    ensures CheckOwner(users, ownerId).Success? && FindByOwnerId(items, ownerId.value) == [] ==> r == Success([])
    ensures CheckOwner(users, ownerId).Success? && FindByOwnerId(items, ownerId.value) != [] ==>
              (r.Failure? <==> !BatchesKeyed(bookings, IdsOf(FindByOwnerId(items, ownerId.value)), now))
    ensures r.Failure? ==> r.error == Validation || r.error == NotFound || r.error == IllegalState
    ensures r.Success? ==> |r.value| == |FindByOwnerId(items, ownerId.value)|
    ensures r.Success? ==> forall k :: 0 <= k < |r.value| ==>
                             IsListingEntry(r.value[k], FindByOwnerId(items, ownerId.value)[k], bookings, comments, now)
  {
    match CheckOwner(users, ownerId)
    case Failure(e) => Failure(e)
    case Success(owner) =>
      var owned := FindByOwnerId(items, owner);
      if owned == [] then Success([])
      else
        var ids := IdsOf(owned);
        match JoinForItems(bookings, comments, ids, now)
        case Failure(e) => Failure(e)
        case Success(j) =>
          var entries := seq(|owned|, k requires 0 <= k < |owned| => Entry(owned[k], j));
          assert forall k :: 0 <= k < |entries| ==> IsListingEntry(entries[k], owned[k], bookings, comments, now) by {
            forall k | 0 <= k < |entries| ensures IsListingEntry(entries[k], owned[k], bookings, comments, now) {
              assert ids[k] in ids;
            }
          }
          Success(entries)
  }

  /** `getItemById`: the owner check, then the item check; otherwise the
      item with its comments, and with its last and next booking for its
      owner only (null for anyone else). */
  function GetItemById(users: map<int, User>, items: seq<Item>, bookings: seq<Booking>, comments: seq<Comment>, itemId: Option<int>, ownerId: Option<int>, now: int)
    : (r: Result<ItemWithBookingsDto>)
    ensures CheckOwner(users, ownerId).Failure? ==> r == Failure(CheckOwner(users, ownerId).error)
    ensures CheckOwner(users, ownerId).Success? && CheckId(items, itemId).Failure? ==> r == Failure(Validation)
    ensures r.Success? <==> CheckOwner(users, ownerId).Success? && CheckId(items, itemId).Success?
    ensures r.Success? ==>
              var item := CheckId(items, itemId).value;
              && r.value.id == itemId && r.value.name == item.name
              && r.value.description == item.description && r.value.available == item.available
              && r.value.comments == CommentsOf(comments, itemId.value)
    ensures r.Success? && Some(CheckId(items, itemId).value.ownerId) != ownerId ==>
              r.value.lastBooking.None? && r.value.nextBooking.None?
    ensures r.Success? && Some(CheckId(items, itemId).value.ownerId) == ownerId ==>
              IsLastBookingOf(bookings, itemId.value, now, r.value.lastBooking) &&
              IsNextBookingOf(bookings, itemId.value, now, r.value.nextBooking)
  {
    match CheckOwner(users, ownerId)
    case Failure(e) => Failure(e)
    case Success(owner) =>
      match CheckId(items, itemId)
      case Failure(e) => Failure(e)
      case Success(item) =>
        var isOwner := item.ownerId == owner;
        var last := if isOwner then FindLastBooking(bookings, itemId.value, Approved, now) else None;
        var next := if isOwner then FindNextBooking(bookings, itemId.value, now) else None;
        SingleQueriesFillSlots(bookings, itemId.value, now);
        Success(ToWithBookingsDto(item, last, next, CommentsOf(comments, itemId.value)))
  }

  /** `searchItems`: an empty list for a null or blank text, before the
      owner is checked at all; then the owner check; otherwise the available
      items that match the text, as DTOs. */
  function SearchItems(users: map<int, User>, items: seq<Item>, text: Option<string>, ownerId: Option<int>, matches: (string, Item) -> bool)
    : (r: Result<seq<ItemDto>>)
    ensures text.None? || IsBlank(text.value) ==> r == Success([])
    ensures text.Some? && !IsBlank(text.value) && CheckOwner(users, ownerId).Failure? ==>
              r == Failure(CheckOwner(users, ownerId).error)
    ensures r.Success? <==> text.None? || IsBlank(text.value) || CheckOwner(users, ownerId).Success?
    ensures r.Success? && text.Some? && !IsBlank(text.value) ==>
              forall d :: d in r.value <==>
                exists i :: i in items && i.available == Some(true) && matches(text.value, i) && d == ToDto(i)
  {
    if text.None? || IsBlank(text.value) then Success([])
    else match CheckOwner(users, ownerId)
      case Failure(e) => Failure(e)
      case Success(_) =>
        var found := SearchAvailableItems(items, text.value, matches);
        var dtos := seq(|found|, k requires 0 <= k < |found| => ToDto(found[k]));
        assert forall d :: d in dtos <==> exists i :: i in found && d == ToDto(i) by {
          forall d ensures d in dtos <==> exists i :: i in found && d == ToDto(i) {
            if d in dtos {
              var k :| 0 <= k < |dtos| && dtos[k] == d;
              assert found[k] in found;
            }
            if exists i :: i in found && d == ToDto(i) {
              var i :| i in found && d == ToDto(i);
              var k :| 0 <= k < |found| && found[k] == i;
              assert dtos[k] == d;
            }
          }
        }
        Success(dtos)
  }

  /** The items and comments tables with the identity counters that number
      new rows. */
  class ItemStore {
    var items: seq<Item>
    var comments: seq<Comment>
    var nextItemId: int
    var nextCommentId: int

    /** Every item is a complete row; item ids and comment ids are positive,
        below their counters, and unique. */
    ghost predicate Valid()
      reads this
    {
      && nextItemId >= 1 && nextCommentId >= 1
      && (forall k :: 0 <= k < |items| ==> Persisted(items[k]) && 1 <= items[k].id.value < nextItemId)
      && (forall i, j :: 0 <= i < j < |items| ==> items[i].id != items[j].id)
      && (forall k :: 0 <= k < |comments| ==> 1 <= comments[k].id < nextCommentId)
      && (forall i, j :: 0 <= i < j < |comments| ==> comments[i].id != comments[j].id)
    }

    /** Empty tables. */
    constructor ()
      ensures Valid()
      ensures items == [] && comments == [] && nextItemId == 1 && nextCommentId == 1
    {
      items := [];
      comments := [];
      nextItemId := 1;
      nextCommentId := 1;
    }

    /** `addItem`: the owner check; otherwise stores the DTO's fields under a
        fresh id, owned by the caller, and returns the stored item's DTO. A
        failure changes nothing. */
    method AddItem(users: map<int, User>, dto: ItemDto, ownerId: Option<int>) returns (r: Result<ItemDto>)
      requires Valid()
      requires dto.name.Some? && dto.description.Some? && dto.available.Some?
      modifies this
      ensures Valid()
      ensures comments == old(comments) && nextCommentId == old(nextCommentId)
      ensures r.Failure? <==> CheckOwner(users, ownerId).Failure?
      ensures r.Failure? ==> r.error == CheckOwner(users, ownerId).error && items == old(items) && nextItemId == old(nextItemId)
      ensures r.Success? ==>
                var saved := ToItem(dto, ownerId.value).(id := Some(old(nextItemId)));
                && items == old(items) + [saved]
                && nextItemId == old(nextItemId) + 1
                && r.value == dto.(id := saved.id)
    {
      var owner := CheckOwner(users, ownerId);
      if owner.Failure? {
        return Failure(owner.error);
      }
      var saved := ToItem(dto, owner.value).(id := Some(nextItemId));
      items := items + [saved];
      nextItemId := nextItemId + 1;
      r := Success(ToDto(saved));
    }

    /** `updateItem`: the item check, then Forbidden for anyone but the
        item's owner (a null caller included); otherwise the patched item
        replaces the stored one in place. A failure changes nothing. */
    method UpdateItem(itemId: Option<int>, dto: ItemDto, ownerId: Option<int>) returns (r: Result<ItemDto>)
      requires Valid()
      modifies this
      ensures Valid()
      ensures comments == old(comments) && nextItemId == old(nextItemId) && nextCommentId == old(nextCommentId)
      ensures r == Failure(Validation) <==> CheckId(old(items), itemId).Failure?
      ensures r == Failure(Forbidden) <==>
                exists k :: 0 <= k < |old(items)| && itemId.Some? && itemId.value >= 1 && old(items)[k].id == itemId
                            && Some(old(items)[k].ownerId) != ownerId
      ensures r.Failure? ==> r.error == Validation || r.error == Forbidden
      ensures r.Success? <==> CheckId(old(items), itemId).Success? && Some(CheckId(old(items), itemId).value.ownerId) == ownerId
      ensures r.Failure? ==> items == old(items)
      ensures r.Success? ==>
                exists k :: 0 <= k < |old(items)| && old(items)[k].id == itemId && Some(old(items)[k].ownerId) == ownerId
                            && items == old(items)[k := Update(old(items)[k], dto)]
                            && r.value == ToDto(items[k])
    {
      if itemId.None? || itemId.value < 1 {
        return Failure(Validation);
      }
      var idx := IndexOf(items, (i: Item) => i.id == itemId);
      if idx.None? {
        return Failure(Validation);
      }
      var k := idx.value;
      if Some(items[k].ownerId) != ownerId {
        return Failure(Forbidden);
      }
      UpdateProperties(items[k], dto);
      items := items[k := Update(items[k], dto)];
      r := Success(ToDto(items[k]));
    }

    /** `addComment`: Validation for a null or blank text before anything is
        looked up; then the item check; then NotFound for an unknown author;
        then Validation unless the author has an APPROVED booking of the item
        that ended before `now`; otherwise stores the comment, stamped
        `now`, under a fresh id. A failure changes nothing. */
    method AddComment(users: map<int, User>, bookings: seq<Booking>, itemId: Option<int>, userId: int, text: Option<string>, now: int)
      returns (r: Result<Comment>)
      requires Valid()
      modifies this
      ensures Valid()
      ensures items == old(items) && nextItemId == old(nextItemId)
      ensures text.None? || IsBlank(text.value) ==> r == Failure(Validation)
      ensures text.Some? && !IsBlank(text.value) && CheckId(items, itemId).Failure? ==> r == Failure(Validation)
      ensures text.Some? && !IsBlank(text.value) && CheckId(items, itemId).Success? && userId !in users ==> r == Failure(NotFound)
      ensures && text.Some? && !IsBlank(text.value) && CheckId(items, itemId).Success? && userId in users
              && !ExistsByBookerIdAndItemIdAndEndBeforeAndStatus(bookings, userId, itemId.value, now, Approved)
              ==> r == Failure(Validation)
      ensures r.Success? <==>
                && text.Some? && !IsBlank(text.value)
                && CheckId(items, itemId).Success?
                && userId in users
                && ExistsByBookerIdAndItemIdAndEndBeforeAndStatus(bookings, userId, itemId.value, now, Approved)
      ensures r.Failure? ==> comments == old(comments) && nextCommentId == old(nextCommentId)
      ensures r.Failure? ==> r.error == Validation || r.error == NotFound
      ensures r.Success? ==>
                && r.value == Comment(old(nextCommentId), text.value, itemId.value, userId, now)
                && comments == old(comments) + [r.value]
                && nextCommentId == old(nextCommentId) + 1
    {
      if text.None? || IsBlank(text.value) {
        return Failure(Validation);
      }
      var item := CheckId(items, itemId);
      if item.Failure? {
        return Failure(item.error);
      }
      if userId !in users {
        return Failure(NotFound);
      }
      if !ExistsByBookerIdAndItemIdAndEndBeforeAndStatus(bookings, userId, itemId.value, now, Approved) {
        return Failure(Validation);
      }
      var c := Comment(nextCommentId, text.value, item.value.id.value, userId, now);
      comments := comments + [c];
      nextCommentId := nextCommentId + 1;
      r := Success(c);
    }
  }
}
