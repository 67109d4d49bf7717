/** The booking queries, each as a function of the bookings table (a
    sequence of rows in table order) and of the query's parameters. Derived
    queries and JPQL queries alike are a WHERE filter, optionally followed by
    `ORDER BY start DESC` (a stable sort, since SQL leaves the order of equal
    starts open), or an argmax/argmin per item. */
module BookingRepository {
  import opened Base
  import opened Seqs
  import opened Domain

  /** A filter of the table followed by `ORDER BY b.start DESC`. */
  function Query(store: seq<Booking>, p: Booking -> bool): (r: seq<Booking>)
    ensures SortedDesc(r, StartOf)
    ensures forall b :: b in r <==> b in store && p(b)
    ensures forall b :: multiset(r)[b] == if p(b) then multiset(store)[b] else 0
  {
    var f := Filter(store, p);
    var r := SortDesc(f, StartOf);
    assert forall b :: b in r <==> b in multiset(f);
    r
  }

  // ---- Listings of a booker and of an owner -------------------------------

  /** `findByBookerId(bookerId, Sort.by("start").descending())`. */
  function FindByBookerId(store: seq<Booking>, bookerId: int): (r: seq<Booking>)
    ensures SortedDesc(r, StartOf)
    ensures forall b :: b in r <==> b in store && b.bookerId == bookerId
    ensures forall b :: multiset(r)[b] == if b.bookerId == bookerId then multiset(store)[b] else 0
  {
    Query(store, (b: Booking) => b.bookerId == bookerId)
  }

  /** `findByItemOwnerId(ownerId, Sort.by("start").descending())`. */
  function FindByItemOwnerId(store: seq<Booking>, ownerId: int): (r: seq<Booking>)
    ensures SortedDesc(r, StartOf)
    ensures forall b :: b in r <==> b in store && b.itemOwnerId == ownerId
    ensures forall b :: multiset(r)[b] == if b.itemOwnerId == ownerId then multiset(store)[b] else 0
  {
    Query(store, (b: Booking) => b.itemOwnerId == ownerId)
  }

  /** `findCurrentBookingsByUser`: inclusive at both ends. */
  function FindCurrentBookingsByUser(store: seq<Booking>, userId: int, now: int): (r: seq<Booking>)
    ensures SortedDesc(r, StartOf)
    ensures forall b :: b in r <==> b in store && b.bookerId == userId && b.start <= now && b.end >= now
    ensures forall b :: multiset(r)[b] == if b.bookerId == userId && b.start <= now && b.end >= now then multiset(store)[b] else 0
  {
    Query(store, (b: Booking) => b.bookerId == userId && b.start <= now && b.end >= now)
  }

  /** `findCurrentBookingsByOwner`: inclusive at both ends. */
  function FindCurrentBookingsByOwner(store: seq<Booking>, ownerId: int, now: int): (r: seq<Booking>)
    ensures SortedDesc(r, StartOf)
    ensures forall b :: b in r <==> b in store && b.itemOwnerId == ownerId && b.start <= now && b.end >= now
    ensures forall b :: multiset(r)[b] == if b.itemOwnerId == ownerId && b.start <= now && b.end >= now then multiset(store)[b] else 0
  {
    Query(store, (b: Booking) => b.itemOwnerId == ownerId && b.start <= now && b.end >= now)
  }

  /** `findPastBookingsByUser`. */
  function FindPastBookingsByUser(store: seq<Booking>, userId: int, now: int): (r: seq<Booking>)
    ensures SortedDesc(r, StartOf)
    ensures forall b :: b in r <==> b in store && b.bookerId == userId && b.end < now
    ensures forall b :: multiset(r)[b] == if b.bookerId == userId && b.end < now then multiset(store)[b] else 0
  {
    Query(store, (b: Booking) => b.bookerId == userId && b.end < now)
  }

  /** `findPastBookingsByOwner`. */
  function FindPastBookingsByOwner(store: seq<Booking>, ownerId: int, now: int): (r: seq<Booking>)
    ensures SortedDesc(r, StartOf)
    ensures forall b :: b in r <==> b in store && b.itemOwnerId == ownerId && b.end < now
    ensures forall b :: multiset(r)[b] == if b.itemOwnerId == ownerId && b.end < now then multiset(store)[b] else 0
  {
    Query(store, (b: Booking) => b.itemOwnerId == ownerId && b.end < now)
  }

  /** `findFutureBookingsByUser`. */
  function FindFutureBookingsByUser(store: seq<Booking>, userId: int, now: int): (r: seq<Booking>)
    ensures SortedDesc(r, StartOf)
    ensures forall b :: b in r <==> b in store && b.bookerId == userId && b.start > now
    ensures forall b :: multiset(r)[b] == if b.bookerId == userId && b.start > now then multiset(store)[b] else 0
  {
    Query(store, (b: Booking) => b.bookerId == userId && b.start > now)
  }

  /** `findFutureBookingsByOwner`. */
  function FindFutureBookingsByOwner(store: seq<Booking>, ownerId: int, now: int): (r: seq<Booking>)
    ensures SortedDesc(r, StartOf)
    ensures forall b :: b in r <==> b in store && b.itemOwnerId == ownerId && b.start > now
    ensures forall b :: multiset(r)[b] == if b.itemOwnerId == ownerId && b.start > now then multiset(store)[b] else 0
  {
    Query(store, (b: Booking) => b.itemOwnerId == ownerId && b.start > now)
  }

  /** `findWaitingBookingsByUser`: status only, no time condition. */
  function FindWaitingBookingsByUser(store: seq<Booking>, userId: int): (r: seq<Booking>)
    ensures SortedDesc(r, StartOf)
    ensures forall b :: b in r <==> b in store && b.bookerId == userId && b.status == Status.Waiting
    ensures forall b :: multiset(r)[b] == if b.bookerId == userId && b.status == Status.Waiting then multiset(store)[b] else 0
  {
    Query(store, (b: Booking) => b.bookerId == userId && b.status == Status.Waiting)
  }

  /** `findWaitingBookingsByOwner`: status only, no time condition. */
  function FindWaitingBookingsByOwner(store: seq<Booking>, ownerId: int): (r: seq<Booking>)
    ensures SortedDesc(r, StartOf)
    ensures forall b :: b in r <==> b in store && b.itemOwnerId == ownerId && b.status == Status.Waiting
    ensures forall b :: multiset(r)[b] == if b.itemOwnerId == ownerId && b.status == Status.Waiting then multiset(store)[b] else 0
  {
    Query(store, (b: Booking) => b.itemOwnerId == ownerId && b.status == Status.Waiting)
  }

  /** `findRejectedBookingsByUser`: status only, no time condition. */
  function FindRejectedBookingsByUser(store: seq<Booking>, userId: int): (r: seq<Booking>)
    ensures SortedDesc(r, StartOf)
    ensures forall b :: b in r <==> b in store && b.bookerId == userId && b.status == Status.Rejected
    ensures forall b :: multiset(r)[b] == if b.bookerId == userId && b.status == Status.Rejected then multiset(store)[b] else 0
  {
    Query(store, (b: Booking) => b.bookerId == userId && b.status == Status.Rejected)
  }

  /** `findRejectedBookingsByOwner`: status only, no time condition. */
  function FindRejectedBookingsByOwner(store: seq<Booking>, ownerId: int): (r: seq<Booking>)
    ensures SortedDesc(r, StartOf)
    ensures forall b :: b in r <==> b in store && b.itemOwnerId == ownerId && b.status == Status.Rejected
    ensures forall b :: multiset(r)[b] == if b.itemOwnerId == ownerId && b.status == Status.Rejected then multiset(store)[b] else 0
  {
    Query(store, (b: Booking) => b.itemOwnerId == ownerId && b.status == Status.Rejected)
  }

  // ---- Last and next booking of an item -----------------------------------

  /** An approved booking that has started before `now`. */
  predicate StartedBefore(b: Booking, now: int)
  {
    b.status == Approved && b.start < now
  }

  /** An approved booking that starts after `now`. */
  predicate StartsAfter(b: Booking, now: int)
  {
    b.status == Approved && b.start > now
  }

  /** `b` is a booking of the table that started before `now` and no
      approved booking of its item started between it and `now`. */
  ghost predicate IsLatestPast(store: seq<Booking>, b: Booking, now: int)
  {
    b in store && StartedBefore(b, now) &&
    forall b2 :: b2 in store && b2.itemId == b.itemId && StartedBefore(b2, now) ==> b2.start <= b.start
  }

  /** `b` is a booking of the table that starts after `now` and no approved
      booking of its item starts between `now` and it. */
  ghost predicate IsEarliestFuture(store: seq<Booking>, b: Booking, now: int)
  {
    b in store && StartsAfter(b, now) &&
    forall b2 :: b2 in store && b2.itemId == b.itemId && StartsAfter(b2, now) ==> b.start <= b2.start
  }

  /** The subquery `SELECT MAX(b2.start) ... WHERE b2.item.id = itemId AND
      b2.status = 'APPROVED' AND b2.start < now`; None is SQL's NULL. */
  function MaxStartBefore(store: seq<Booking>, itemId: int, now: int): (m: Option<int>)
    ensures m.None? <==> forall b :: b in store && b.itemId == itemId ==> !StartedBefore(b, now)
    ensures m.Some? ==> exists b :: b in store && b.itemId == itemId && StartedBefore(b, now) && b.start == m.value
    ensures m.Some? ==> forall b :: b in store && b.itemId == itemId && StartedBefore(b, now) ==> b.start <= m.value
  {
    if store == [] then None
    else
      assert store == [store[0]] + store[1..];
      var rest := MaxStartBefore(store[1..], itemId, now);
      var b := store[0];
      if b.itemId == itemId && StartedBefore(b, now) then
        if rest.Some? && rest.value >= b.start then rest else Some(b.start)
      else rest
  }

  /** The subquery `SELECT MIN(b2.start) ... WHERE b2.item.id = itemId AND
      b2.status = 'APPROVED' AND b2.start > now`; None is SQL's NULL. */
  function MinStartAfter(store: seq<Booking>, itemId: int, now: int): (m: Option<int>)
    ensures m.None? <==> forall b :: b in store && b.itemId == itemId ==> !StartsAfter(b, now)
    ensures m.Some? ==> exists b :: b in store && b.itemId == itemId && StartsAfter(b, now) && b.start == m.value
    ensures m.Some? ==> forall b :: b in store && b.itemId == itemId && StartsAfter(b, now) ==> m.value <= b.start
  {
    if store == [] then None
    else
      assert store == [store[0]] + store[1..];
      var rest := MinStartAfter(store[1..], itemId, now);
      var b := store[0];
      if b.itemId == itemId && StartsAfter(b, now) then
        if rest.Some? && rest.value <= b.start then rest else Some(b.start)
      else rest
  }

  /** `findLastBookingsForItems(itemIds, now)`: for each listed item, every
      approved booking that started before `now` at the latest such start.
      An item without one contributes nothing; ties all appear. The query has
      no ORDER BY; the model keeps table order. */
  function FindLastBookingsForItems(store: seq<Booking>, itemIds: seq<int>, now: int): (r: seq<Booking>)
    ensures SubseqOf(r, store)
    ensures forall b :: b in r <==> b.itemId in itemIds && IsLatestPast(store, b, now)
  {
    var r := Filter(store, (b: Booking) => b.itemId in itemIds && StartedBefore(b, now) && MaxStartBefore(store, b.itemId, now) == Some(b.start));
    assert forall b :: b in r <==> b.itemId in itemIds && IsLatestPast(store, b, now) by {
      forall b | b in store && StartedBefore(b, now) {
        MaxStartIsLatest(store, b, now);
      }
    }
    r
  }

  /** The MAX subquery equals a candidate's start exactly when no candidate
      of the same item starts later. */
  lemma MaxStartIsLatest(store: seq<Booking>, b: Booking, now: int)
    requires b in store && StartedBefore(b, now)
    ensures MaxStartBefore(store, b.itemId, now) == Some(b.start) <==> IsLatestPast(store, b, now)
  {
  }

  /** `findNextBookingsForItems(itemIds, now)`: for each listed item, every
      approved booking that starts after `now` at the earliest such start.
      An item without one contributes nothing; ties all appear. The query has
      no ORDER BY; the model keeps table order. */
  function FindNextBookingsForItems(store: seq<Booking>, itemIds: seq<int>, now: int): (r: seq<Booking>)
    ensures SubseqOf(r, store)
    ensures forall b :: b in r <==> b.itemId in itemIds && IsEarliestFuture(store, b, now)
  {
    var r := Filter(store, (b: Booking) => b.itemId in itemIds && StartsAfter(b, now) && MinStartAfter(store, b.itemId, now) == Some(b.start));
    assert forall b :: b in r <==> b.itemId in itemIds && IsEarliestFuture(store, b, now) by {
      forall b | b in store && StartsAfter(b, now) {
        MinStartIsEarliest(store, b, now);
      }
    }
    r
  }

  /** The MIN subquery equals a candidate's start exactly when no candidate
      of the same item starts earlier. */
  lemma MinStartIsEarliest(store: seq<Booking>, b: Booking, now: int)
    requires b in store && StartsAfter(b, now)
    ensures MinStartAfter(store, b.itemId, now) == Some(b.start) <==> IsEarliestFuture(store, b, now)
  {
  }

  /** The rows `findLastBooking(itemId, status, now)` selects, in its
      `ORDER BY b.start DESC` order. */
  function LastBookingCandidates(store: seq<Booking>, itemId: int, status: Status, now: int): (r: seq<Booking>)
    ensures SortedDesc(r, StartOf)
    ensures forall b :: b in r <==> b in store && b.itemId == itemId && b.status == status && b.start < now
    ensures forall b :: multiset(r)[b] == if b.itemId == itemId && b.status == status && b.start < now then multiset(store)[b] else 0
  {
    Query(store, (b: Booking) => b.itemId == itemId && b.status == status && b.start < now)
  }

  /** `findLastBooking` as declared: a query without LIMIT whose method
      returns one entity. A single-result query method yields null for no
      row and fails with IncorrectResultSizeDataAccessException for more
      than one. */
  function FindLastBookingAsWritten(store: seq<Booking>, itemId: int, status: Status, now: int): (r: Result<Option<Booking>>)
    ensures r.Failure? <==> |LastBookingCandidates(store, itemId, status, now)| > 1
    ensures r.Failure? ==> r.error == IncorrectResultSize
    ensures r == Success(None) <==> forall b :: b in store ==> !(b.itemId == itemId && b.status == status && b.start < now)
    ensures r.Success? && r.value.Some? ==>
      var b := r.value.value;
      b in store && b.itemId == itemId && b.status == status && b.start < now
  {
    var c := LastBookingCandidates(store, itemId, status, now);
    if |c| == 0 then Success(None)
    else if |c| == 1 then
      assert c[0] in c;
      Success(Some(c[0]))
    else Failure(IncorrectResultSize)
  }

  /** Two matching rows make the declared `findLastBooking` fail. */
  lemma TwoPastBookingsBreakFindLastBooking(store: seq<Booking>, itemId: int, status: Status, now: int, i: nat, j: nat)
    requires i < j < |store|
    requires store[i].itemId == itemId && store[i].status == status && store[i].start < now
    requires store[j].itemId == itemId && store[j].status == status && store[j].start < now
    ensures FindLastBookingAsWritten(store, itemId, status, now) == Failure(IncorrectResultSize)
  {
    var p := (b: Booking) => b.itemId == itemId && b.status == status && b.start < now;
    FilterKeepsTwo(store, p, i, j);
    assert |LastBookingCandidates(store, itemId, status, now)| == |Filter(store, p)|;
  }

  /** `findLastBooking` as its ORDER BY intends, with `LIMIT 1`: the
      matching booking with the latest start, or null. */
  function FindLastBooking(store: seq<Booking>, itemId: int, status: Status, now: int): (r: Option<Booking>)
    ensures r.None? <==> forall b :: b in store ==> !(b.itemId == itemId && b.status == status && b.start < now)
    ensures r.Some? ==>
      var b := r.value;
      b in store && b.itemId == itemId && b.status == status && b.start < now &&
      forall b2 :: b2 in store && b2.itemId == itemId && b2.status == status && b2.start < now ==> b2.start <= b.start
  {
    var c := LastBookingCandidates(store, itemId, status, now);
    if c == [] then None
    else
      assert c[0] in c;
      assert forall b2 :: b2 in c ==> b2.start <= c[0].start by {
        forall b2 | b2 in c ensures b2.start <= c[0].start {
          var k :| 0 <= k < |c| && c[k] == b2;
          assert StartOf(c[0]) >= StartOf(c[k]) || k == 0;
        }
      }
      Some(c[0])
  }

  /** `findNextBooking(itemId, now)`: `ORDER BY b.start ASC LIMIT 1` over the
      approved bookings of the item that start after `now`; among equal
      starts the model takes the first in table order. */
  function FindNextBooking(store: seq<Booking>, itemId: int, now: int): (r: Option<Booking>)
    ensures r.None? <==> forall b :: b in store && b.itemId == itemId ==> !StartsAfter(b, now)
    ensures r.Some? ==>
      var b := r.value;
      b in store && b.itemId == itemId && StartsAfter(b, now) &&
      forall b2 :: b2 in store && b2.itemId == itemId && StartsAfter(b2, now) ==> b.start <= b2.start
  {
    if store == [] then None
    else
      assert store == [store[0]] + store[1..];
      var rest := FindNextBooking(store[1..], itemId, now);
      var b := store[0];
      if b.itemId == itemId && StartsAfter(b, now) && (rest.None? || b.start <= rest.value.start) then Some(b)
      else rest
  }

  /** `existsByBookerIdAndItemIdAndEndBeforeAndStatus`: some booking by that
      booker, of that item, with that status, ended strictly before `end`. */
  function ExistsByBookerIdAndItemIdAndEndBeforeAndStatus(store: seq<Booking>, userId: int, itemId: int, end: int, status: Status): (r: bool)
    ensures r <==> exists b :: b in store && b.bookerId == userId && b.itemId == itemId && b.end < end && b.status == status
  {
    if store == [] then false
    else
      assert store == [store[0]] + store[1..];
      var b := store[0];
      (b.bookerId == userId && b.itemId == itemId && b.end < end && b.status == status)
      || ExistsByBookerIdAndItemIdAndEndBeforeAndStatus(store[1..], userId, itemId, end, status)
  }
}
