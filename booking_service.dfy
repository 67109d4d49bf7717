/** The booking service of the earlier (`src`) tree: creating a booking
    behind a fixed sequence of guards, the one-shot owner decision, access
    to a single booking, and the state-filtered listings. */
module BookingService {
  import opened Base
  import opened Seqs
  import opened Domain
  import opened BookingRepository
  import SrcItemModel

  /** `BookingDto` as a creation request: the time window and the item. */
  datatype BookingDto = BookingDto(start: int, end: int, itemId: Option<int>)

  /** The switch of `filterBookings`: whether `b` is in the requested state
      at `now`. CURRENT is strict at both ends here. */
  predicate InState(b: Booking, state: BookingState, now: int)
  {
    match state
    case All => true
    case Current => b.start < now && b.end > now
    case Past => b.end < now
    case Future => b.start > now
    case Waiting => b.status == Status.Waiting
    case Rejected => b.status == Status.Rejected
  }

  /** `filterBookings`: the bookings in the requested state, in the order
      they came in. ALL keeps the list as it is, and a list sorted by start,
      latest first, stays sorted. */
  function FilterBookings(bookings: seq<Booking>, state: BookingState, now: int): (r: seq<Booking>)
    ensures SubseqOf(r, bookings)
    ensures forall b :: b in r <==> b in bookings && InState(b, state, now)
    ensures forall b :: multiset(r)[b] == if InState(b, state, now) then multiset(bookings)[b] else 0
    ensures state == All ==> r == bookings
    ensures SortedDesc(bookings, StartOf) ==> SortedDesc(r, StartOf)
  {
    var p := (b: Booking) => InState(b, state, now);
    var r := Filter(bookings, p);
    assert state == All ==> r == bookings by {
      if state == All {
        FilterKeepsAll(bookings, p);
      }
    }
    assert SortedDesc(bookings, StartOf) ==> SortedDesc(r, StartOf) by {
      if SortedDesc(bookings, StartOf) {
        SubseqKeepsOrder(r, bookings, StartOf);
      }
    }
    r
  }

  /** For a booking that does not end before it starts, CURRENT, PAST and
      FUTURE exclude one another. */
  lemma TimeStatesDisjoint(b: Booking, now: int)
    requires b.start <= b.end
    ensures !(InState(b, Current, now) && InState(b, Past, now))
    ensures !(InState(b, Current, now) && InState(b, Future, now))
    ensures !(InState(b, Past, now) && InState(b, Future, now))
  {
  }

  /** The strict CURRENT of this service against the inclusive CURRENT of
      the later tree's queries: every strictly current booking is
      inclusively current, and the two differ exactly on bookings that
      start or end at `now`. */
  lemma StrictCurrentWithinInclusive(b: Booking, now: int)
    ensures InState(b, Current, now) ==> b.start <= now && b.end >= now
    ensures (b.start <= now && b.end >= now && !InState(b, Current, now)) <==>
            (b.start <= now && b.end >= now && (b.start == now || b.end == now))
  {
  }

  /** `getUserBookings`: NotFound for an unknown user, then the parse of the
      state token (an unknown token raises IllegalArgument), then the
      user's bookings in that state, latest start first. */
  function GetUserBookings(users: map<int, User>, bookings: seq<Booking>, userId: int, token: Option<BookingState>, now: int): (r: Result<seq<Booking>>)
    ensures userId !in users ==> r == Failure(NotFound)
    ensures userId in users && token.None? ==> r == Failure(IllegalArgument)
    ensures r.Success? <==> userId in users && token.Some?
    ensures r.Success? ==> SortedDesc(r.value, StartOf)
    ensures r.Success? ==> forall b :: b in r.value <==> b in bookings && b.bookerId == userId && InState(b, token.value, now)
    ensures r.Success? ==> forall b :: multiset(r.value)[b] ==
                                       if b.bookerId == userId && InState(b, token.value, now) then multiset(bookings)[b] else 0
  {
    if userId !in users then Failure(NotFound)
    else if token.None? then Failure(IllegalArgument)
    else Success(FilterBookings(FindByBookerId(bookings, userId), token.value, now))
  }

  /** `getOwnerBookings`: the same for the bookings of the owner's items. */
  function GetOwnerBookings(users: map<int, User>, bookings: seq<Booking>, ownerId: int, token: Option<BookingState>, now: int): (r: Result<seq<Booking>>)
    ensures ownerId !in users ==> r == Failure(NotFound)
    ensures ownerId in users && token.None? ==> r == Failure(IllegalArgument)
    ensures r.Success? <==> ownerId in users && token.Some?
    ensures r.Success? ==> SortedDesc(r.value, StartOf)
    ensures r.Success? ==> forall b :: b in r.value <==> b in bookings && b.itemOwnerId == ownerId && InState(b, token.value, now)
    ensures r.Success? ==> forall b :: multiset(r.value)[b] ==
                                       if b.itemOwnerId == ownerId && InState(b, token.value, now) then multiset(bookings)[b] else 0
  {
    if ownerId !in users then Failure(NotFound)
    else if token.None? then Failure(IllegalArgument)
    else Success(FilterBookings(FindByItemOwnerId(bookings, ownerId), token.value, now))
  }

  /** `BookingRepository.findById`: the row with that id, if any. */
  function FindBooking(bookings: seq<Booking>, bookingId: int): (r: Option<Booking>)
    ensures r.Some? ==> r.value in bookings && r.value.id == bookingId
    ensures r.None? <==> forall b :: b in bookings ==> b.id != bookingId
  {
    FindFirst(bookings, (b: Booking) => b.id == bookingId)
  }

  /** `getBookingById`: NotFound for an unknown booking; otherwise the
      booking, which only its booker and its item's owner may read. */
  function GetBookingById(bookings: seq<Booking>, bookingId: int, userId: int): (r: Result<Booking>)
    ensures r == Failure(NotFound) <==> forall b :: b in bookings ==> b.id != bookingId
    ensures r.Success? ==> r.value in bookings && r.value.id == bookingId
    ensures r.Success? ==> r.value.bookerId == userId || r.value.itemOwnerId == userId
    ensures r == Failure(Forbidden) ==>
              exists b :: b in bookings && b.id == bookingId && b.bookerId != userId && b.itemOwnerId != userId
    ensures r.Failure? ==> r.error == NotFound || r.error == Forbidden
  {
    match FindBooking(bookings, bookingId)
    case None => Failure(NotFound)
    case Some(b) =>
      if b.bookerId != userId && b.itemOwnerId != userId then Failure(Forbidden) else Success(b)
  }

  /** With unique booking ids, a stored booking is readable exactly by its
      booker and its item's owner. */
  lemma BookingReadableByPartiesOnly(bookings: seq<Booking>, k: nat, userId: int)
    requires k < |bookings|
    requires forall i, j :: 0 <= i < j < |bookings| ==> bookings[i].id != bookings[j].id
    ensures GetBookingById(bookings, bookings[k].id, userId).Success? <==>
            bookings[k].bookerId == userId || bookings[k].itemOwnerId == userId
  {
    var r := GetBookingById(bookings, bookings[k].id, userId);
    assert bookings[k] in bookings;
    if r.Success? {
      var i :| 0 <= i < |bookings| && bookings[i] == r.value;
      assert i == k;
    } else {
      var b :| b in bookings && b.id == bookings[k].id && b.bookerId != userId && b.itemOwnerId != userId;
      var i :| 0 <= i < |bookings| && bookings[i] == b;
      assert i == k;
    }
  }

  /** The owner's decision on a booking (lines 59-66 of `approveBooking`):
      Forbidden for anyone but the item's owner, checked first; Validation
      unless the booking is still WAITING; otherwise the booking becomes
      APPROVED or REJECTED as asked, and nothing else about it changes. */
  function Decide(b: Booking, ownerId: int, approved: bool): (r: Result<Booking>)
    ensures b.itemOwnerId != ownerId ==> r == Failure(Forbidden)
    ensures b.itemOwnerId == ownerId && b.status != Status.Waiting ==> r == Failure(Validation)
    ensures r.Success? <==> b.itemOwnerId == ownerId && b.status == Status.Waiting
    ensures r.Success? ==> r.value.status == (if approved then Approved else Status.Rejected)
    ensures r.Success? ==> r.value.(status := b.status) == b
  {
    if b.itemOwnerId != ownerId then Failure(Forbidden)
    else if b.status != Status.Waiting then Failure(Validation)
    else Success(b.(status := if approved then Approved else Status.Rejected))
  }

  /** A decision is final: deciding again on the decided booking fails with
      Validation for the owner and Forbidden for anyone else. */
  lemma DecisionIsFinal(b: Booking, ownerId: int, approved: bool, actorId: int, again: bool)
    requires Decide(b, ownerId, approved).Success?
    ensures Decide(Decide(b, ownerId, approved).value, actorId, again) ==
            Failure(if actorId == ownerId then Validation else Forbidden)
  {
  }

  /** The guards of `createBooking`, in their order: NotFound for an unknown
      booker, a null item id or an unknown item; then Validation for an
      unavailable item; then Forbidden when the booker owns the item.
      Yields the item to book. */
  function BookableItem(users: map<int, User>, items: seq<SrcItemModel.Item>, dto: BookingDto, userId: int): (r: Result<SrcItemModel.Item>)
    requires forall i :: i in items ==> SrcItemModel.Persisted(i)
    ensures userId !in users ==> r == Failure(NotFound)
    ensures userId in users && dto.itemId.None? ==> r == Failure(NotFound)
    ensures userId in users && dto.itemId.Some? && (forall i :: i in items ==> i.id != dto.itemId) ==> r == Failure(NotFound)
    ensures r == Failure(Validation) ==> exists i :: i in items && i.id == dto.itemId && i.available == Some(false)
    ensures r == Failure(Forbidden) ==>
              exists i :: i in items && i.id == dto.itemId && i.available == Some(true) && i.ownerId == userId
    ensures userId in users && dto.itemId.Some? && SrcItemModel.FindById(items, dto.itemId.value).Some? ==>
              var item := SrcItemModel.FindById(items, dto.itemId.value).value;
              && (item.available == Some(false) ==> r == Failure(Validation))
              && (item.available == Some(true) && item.ownerId == userId ==> r == Failure(Forbidden))
              && (item.available == Some(true) && item.ownerId != userId ==> r == Success(item))
    ensures r.Failure? ==> r.error in {NotFound, Validation, Forbidden}
    ensures r.Success? ==> userId in users && r.value in items && r.value.id == dto.itemId
    ensures r.Success? ==> r.value.available == Some(true) && r.value.ownerId != userId
  {
    if userId !in users then Failure(NotFound)
    else if dto.itemId.None? then Failure(NotFound)
    else match SrcItemModel.FindById(items, dto.itemId.value)
      case None => Failure(NotFound)
      case Some(item) =>
        assert SrcItemModel.Persisted(item);
        if !item.available.value then Failure(Validation)
        else if item.ownerId == userId then Failure(Forbidden)
        else Success(item)
  }

  /** With unique item ids, a known booker can book an available item of
      someone else. */
  lemma BookingAllowed(users: map<int, User>, items: seq<SrcItemModel.Item>, dto: BookingDto, userId: int, k: nat)
    requires forall i :: i in items ==> SrcItemModel.Persisted(i)
    requires forall i, j :: 0 <= i < j < |items| ==> items[i].id != items[j].id
    requires k < |items| && dto.itemId == items[k].id
    requires userId in users && items[k].available == Some(true) && items[k].ownerId != userId
    ensures BookableItem(users, items, dto, userId) == Success(items[k])
  {
    var r := BookableItem(users, items, dto, userId);
    assert items[k] in items;
    if r.Success? {
      var i :| 0 <= i < |items| && items[i] == r.value;
      assert i == k;
    }
  }

  /** The bookings table with the identity counter that numbers new rows. */
  class BookingStore {
    var bookings: seq<Booking>
    var nextId: int

    /** Ids are positive, below the counter, and unique. */
    ghost predicate Valid()
      reads this
    {
      && nextId >= 1
      && (forall k :: 0 <= k < |bookings| ==> 1 <= bookings[k].id < nextId)
      && (forall i, j :: 0 <= i < j < |bookings| ==> bookings[i].id != bookings[j].id)
    }

    /** An empty table. */
    constructor ()
      ensures Valid()
      ensures bookings == [] && nextId == 1
    {
      bookings := [];
      nextId := 1;
    }

    /** `createBooking`: after the guards of `BookableItem`, stores a new
        WAITING booking of the item by the user over the requested window
        (no check that the window is well-formed) under a fresh id. A
        failure leaves the table as it was. */
    method CreateBooking(users: map<int, User>, items: seq<SrcItemModel.Item>, dto: BookingDto, userId: int)
      returns (r: Result<Booking>)
      requires Valid()
      requires forall i :: i in items ==> SrcItemModel.Persisted(i)
      modifies this
      ensures Valid()
      ensures r.Failure? <==> BookableItem(users, items, dto, userId).Failure?
      ensures r.Failure? ==> r.error == BookableItem(users, items, dto, userId).error
      ensures r.Failure? ==> bookings == old(bookings) && nextId == old(nextId)
      ensures r.Success? ==>
                var item := BookableItem(users, items, dto, userId).value;
                && r.value == Booking(old(nextId), dto.start, dto.end, item.id.value, item.ownerId, userId, Status.Waiting)
                && bookings == old(bookings) + [r.value]
                && nextId == old(nextId) + 1
      ensures r.Success? ==> forall b :: b in old(bookings) ==> b.id != r.value.id
    {
      var check := BookableItem(users, items, dto, userId);
      if check.Failure? {
        return Failure(check.error);
      }
      var item := check.value;
      var b := Booking(nextId, dto.start, dto.end, item.id.value, item.ownerId, userId, Status.Waiting);
      bookings := bookings + [b];
      nextId := nextId + 1;
      r := Success(b);
    }

    /** `approveBooking`: NotFound for an unknown booking; otherwise the
        owner's `Decide` on it, written back in place. A failure leaves the
        table as it was; the counter never moves. */
    method ApproveBooking(bookingId: int, ownerId: int, approved: bool) returns (r: Result<Booking>)
      requires Valid()
      modifies this
      ensures Valid()
      ensures nextId == old(nextId)
      ensures r == Failure(NotFound) <==> forall b :: b in old(bookings) ==> b.id != bookingId
      ensures r.Failure? ==> bookings == old(bookings)
      ensures r != Failure(NotFound) ==>
                exists k :: 0 <= k < |old(bookings)| && old(bookings)[k].id == bookingId
                            && Decide(old(bookings)[k], ownerId, approved) == r
                            && bookings == (if r.Success? then old(bookings)[k := r.value] else old(bookings))
    {
      var idx := IndexOf(bookings, (b: Booking) => b.id == bookingId);
      if idx.None? {
        return Failure(NotFound);
      }
      var k := idx.value;
      r := Decide(bookings[k], ownerId, approved);
      if r.Success? {
        bookings := bookings[k := r.value];
      }
    }
  }

  /** Approving the same booking twice: once the first call has decided
      it, the second fails with Validation and leaves the table alone. */
  method ApproveTwice(store: BookingStore, bookingId: int, ownerId: int, first: bool, second: bool)
    returns (r1: Result<Booking>, r2: Result<Booking>)
    requires store.Valid()
    modifies store
    ensures store.Valid()
    ensures r1.Success? ==> r2 == Failure(Validation)
  {
    ghost var before := store.bookings;
    r1 := store.ApproveBooking(bookingId, ownerId, first);
    ghost var mid := store.bookings;
    r2 := store.ApproveBooking(bookingId, ownerId, second);
    if r1.Success? {
      ghost var k1 :| 0 <= k1 < |before| && before[k1].id == bookingId
                      && Decide(before[k1], ownerId, first) == r1 && mid == before[k1 := r1.value];
      assert mid[k1] in mid;
      ghost var k2 :| 0 <= k2 < |mid| && mid[k2].id == bookingId && Decide(mid[k2], ownerId, second) == r2;
      assert k1 == k2;
    }
  }
}
