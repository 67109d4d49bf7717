/** The stream collectors the owner listing is joined with, and what the
    join guarantees about each item's last booking, next booking and
    comments. Both source trees build the listing from these same steps. */
module ItemEnrichment {
  import opened Base
  import opened Seqs
  import opened Domain
  import opened BookingRepository

  /** No item id occurs twice among the bookings. */
  predicate ItemIdsDistinct(bs: seq<Booking>)
  {
    forall i, j :: 0 <= i < j < |bs| ==> bs[i].itemId != bs[j].itemId
  }

  /** `Collectors.toMap(b -> b.getItem().getId(), b -> b)`: the bookings
      keyed by item id; a repeated key raises IllegalStateException. */
  function ToMapByItem(bs: seq<Booking>): (r: Result<map<int, Booking>>)
    ensures r.Success? <==> ItemIdsDistinct(bs)
    ensures r.Failure? ==> r.error == IllegalState
    ensures r.Success? ==> forall k :: k in r.value <==> exists b :: b in bs && b.itemId == k
    ensures r.Success? ==> forall b :: b in bs ==> b.itemId in r.value && r.value[b.itemId] == b
  {
    if bs == [] then Success(map[])
    else
      assert bs == [bs[0]] + bs[1..];
      assert ItemIdsDistinct(bs) <==>
        ItemIdsDistinct(bs[1..]) && forall j :: 0 <= j < |bs[1..]| ==> bs[1..][j].itemId != bs[0].itemId by {
        if ItemIdsDistinct(bs[1..]) && forall j :: 0 <= j < |bs[1..]| ==> bs[1..][j].itemId != bs[0].itemId {
          forall i, j | 0 <= i < j < |bs| ensures bs[i].itemId != bs[j].itemId {
            if i > 0 {
              assert bs[i] == bs[1..][i - 1] && bs[j] == bs[1..][j - 1];
            } else {
              assert bs[j] == bs[1..][j - 1];
            }
          }
        }
        if ItemIdsDistinct(bs) {
          forall i, j | 0 <= i < j < |bs[1..]| ensures bs[1..][i].itemId != bs[1..][j].itemId {
            assert bs[1..][i] == bs[i + 1] && bs[1..][j] == bs[j + 1];
          }
          forall j | 0 <= j < |bs[1..]| ensures bs[1..][j].itemId != bs[0].itemId {
            assert bs[1..][j] == bs[j + 1];
          }
        }
      }
      match ToMapByItem(bs[1..])
      case Failure(e) => Failure(e)
      case Success(m) =>
        if bs[0].itemId in m then
          var b :| b in bs[1..] && b.itemId == bs[0].itemId;
          assert exists j :: 0 <= j < |bs[1..]| && bs[1..][j] == b;
          Failure(IllegalState)
        else
          assert forall j :: 0 <= j < |bs[1..]| ==> bs[1..][j].itemId != bs[0].itemId by {
            forall j | 0 <= j < |bs[1..]| ensures bs[1..][j].itemId != bs[0].itemId {
              assert bs[1..][j] in bs[1..];
            }
          }
          Success(m[bs[0].itemId := bs[0]])
  }

  /** `r` groups `cs` by item: its keys are the items that have comments,
      and each key holds that item's comments in encounter order. */
  ghost predicate IsGrouping(cs: seq<Comment>, r: map<int, seq<Comment>>)
  {
    && (forall k :: k in r <==> exists c :: c in cs && c.itemId == k)
    && (forall k :: k in r ==> r[k] == CommentsOf(cs, k))
    && (forall k :: k !in r ==> CommentsOf(cs, k) == [])
  }

  /** `Collectors.groupingBy(c -> c.getItem().getId())`: the comments of each
      item that has any, in encounter order. */
  function GroupByItem(cs: seq<Comment>): (r: map<int, seq<Comment>>)
    ensures IsGrouping(cs, r)
  {
    if cs == [] then map[]
    else
      var m := GroupByItem(cs[1..]);
      GroupStep(cs, m);
      m[cs[0].itemId := [cs[0]] + (if cs[0].itemId in m then m[cs[0].itemId] else [])]
  }

  /** Adding the head comment to the grouping of the tail groups the list. */
  lemma GroupStep(cs: seq<Comment>, m: map<int, seq<Comment>>)
    requires cs != [] && IsGrouping(cs[1..], m)
    ensures IsGrouping(cs, m[cs[0].itemId := [cs[0]] + (if cs[0].itemId in m then m[cs[0].itemId] else [])])
  {
    var k := cs[0].itemId;
    var r := m[k := [cs[0]] + (if k in m then m[k] else [])];
    forall j ensures j in r <==> exists c :: c in cs && c.itemId == j {
      GroupKey(cs, m, j);
    }
    forall j ensures j in r ==> r[j] == CommentsOf(cs, j)
    ensures j !in r ==> CommentsOf(cs, j) == []
    {
      CommentsOfCons(cs, j);
    }
  }

  /** After the head comment is added, the keys are the tail's keys and the
      head's item: exactly the items that have a comment in the list. */
  lemma GroupKey(cs: seq<Comment>, m: map<int, seq<Comment>>, j: int)
    requires cs != [] && IsGrouping(cs[1..], m)
    ensures j in m || j == cs[0].itemId <==> exists c :: c in cs && c.itemId == j
  {
    assert cs == [cs[0]] + cs[1..];
    if j == cs[0].itemId {
      assert cs[0] in cs;
    } else if exists c :: c in cs && c.itemId == j {
      var c :| c in cs && c.itemId == j;
      assert c in cs[1..];
    }
  }

  /** How `CommentsOf` takes a list apart at its head. */
  lemma CommentsOfCons(cs: seq<Comment>, j: int)
    requires cs != []
    ensures CommentsOf(cs, j) == if cs[0].itemId == j then [cs[0]] + CommentsOf(cs[1..], j) else CommentsOf(cs[1..], j)
  {
  }

  /** `Map.get(item.getId())` wrapped in `Optional.ofNullable`: null for a
      null id or a missing key. */
  function LookupByItem(m: map<int, Booking>, id: Option<int>): Option<Booking>
  {
    if id.Some? && id.value in m then Some(m[id.value]) else None
  }

  /** `Map.getOrDefault(item.getId(), List.of())`. */
  function CommentsOrEmpty(groups: map<int, seq<Comment>>, id: Option<int>): seq<Comment>
  {
    if id.Some? && id.value in groups then groups[id.value] else []
  }

  /** Reading one item's comments out of the comments of a set of items
      gives exactly that item's comments, in the same order. */
  lemma {:induction false} CommentsOfSubset(cs: seq<Comment>, itemIds: seq<int>, itemId: int)
    requires itemId in itemIds
    ensures CommentsOf(CommentsOfAny(cs, itemIds), itemId) == CommentsOf(cs, itemId)
  {
    if cs != [] {
      CommentsOfSubset(cs[1..], itemIds, itemId);
    }
  }

  /** `slot` is what the listing should show as the item's last booking: the
      latest approved booking that started before `now`, or null when the
      item has none. */
  ghost predicate IsLastBookingOf(bookings: seq<Booking>, itemId: int, now: int, slot: Option<Booking>)
  {
    (slot.Some? ==> slot.value.itemId == itemId && IsLatestPast(bookings, slot.value, now)) &&
    (slot.None? ==> forall b :: b in bookings && b.itemId == itemId ==> !StartedBefore(b, now))
  }

  /** `slot` is what the listing should show as the item's next booking: the
      earliest approved booking that starts after `now`, or null when the
      item has none. */
  ghost predicate IsNextBookingOf(bookings: seq<Booking>, itemId: int, now: int, slot: Option<Booking>)
  {
    (slot.Some? ==> slot.value.itemId == itemId && IsEarliestFuture(bookings, slot.value, now)) &&
    (slot.None? ==> forall b :: b in bookings && b.itemId == itemId ==> !StartsAfter(b, now))
  }

  /** An item id picked out of the keyed batch result of
      `findLastBookingsForItems` gives the item's last booking. */
  lemma LastSlotFromBatch(bookings: seq<Booking>, itemIds: seq<int>, now: int, m: map<int, Booking>, itemId: int)
    requires itemId in itemIds
    requires ToMapByItem(FindLastBookingsForItems(bookings, itemIds, now)) == Success(m)
    ensures IsLastBookingOf(bookings, itemId, now, LookupByItem(m, Some(itemId)))
  {
    var last := FindLastBookingsForItems(bookings, itemIds, now);
    if itemId !in m {
      forall b | b in bookings && b.itemId == itemId ensures !StartedBefore(b, now) {
        if StartedBefore(b, now) {
          assert false;
        }
      }
    }
  }

  /** An item id picked out of the keyed batch result of
      `findNextBookingsForItems` gives the item's next booking. */
  lemma NextSlotFromBatch(bookings: seq<Booking>, itemIds: seq<int>, now: int, m: map<int, Booking>, itemId: int)
    requires itemId in itemIds
    requires ToMapByItem(FindNextBookingsForItems(bookings, itemIds, now)) == Success(m)
    ensures IsNextBookingOf(bookings, itemId, now, LookupByItem(m, Some(itemId)))
  {
    var next := FindNextBookingsForItems(bookings, itemIds, now);
    if itemId !in m {
      forall b | b in bookings && b.itemId == itemId ensures !StartsAfter(b, now) {
        if StartsAfter(b, now) {
          assert false;
        }
      }
    }
  }

  /** The single-item queries give the last and next booking too. */
  lemma SingleQueriesFillSlots(bookings: seq<Booking>, itemId: int, now: int)
    ensures IsLastBookingOf(bookings, itemId, now, FindLastBooking(bookings, itemId, Approved, now))
    ensures IsNextBookingOf(bookings, itemId, now, FindNextBooking(bookings, itemId, now))
  {
  }

  /** The batch queries of the listing can be keyed by item id: neither
      returns two bookings of one item. */
  predicate BatchesKeyed(bookings: seq<Booking>, itemIds: seq<int>, now: int)
  {
    ItemIdsDistinct(FindLastBookingsForItems(bookings, itemIds, now)) &&
    ItemIdsDistinct(FindNextBookingsForItems(bookings, itemIds, now))
  }

  /** The three lookups the owner listing reads its entries from: last
      bookings and next bookings keyed by item id, and comments grouped by
      item id. */
  datatype Joins = Joins(lastMap: map<int, Booking>, nextMap: map<int, Booking>, groups: map<int, seq<Comment>>)

  /** Each listed item id, read out of the lookups, gets its last booking,
      its next booking and exactly its comments. */
  ghost predicate JoinsServe(j: Joins, bookings: seq<Booking>, comments: seq<Comment>, itemIds: seq<int>, now: int)
  {
    forall id :: id in itemIds ==>
      && IsLastBookingOf(bookings, id, now, LookupByItem(j.lastMap, Some(id)))
      && IsNextBookingOf(bookings, id, now, LookupByItem(j.nextMap, Some(id)))
      && CommentsOrEmpty(j.groups, Some(id)) == CommentsOf(comments, id)
  }

  /** Lines 87-98 of the later tree's `getItemsByOwner` (74-85 of the
      earlier tree's): run both batch queries for the item ids, key each by
      item id, and group the items' comments. Fails with IllegalState
      exactly when a batch query returns two bookings of one item. */
  function JoinForItems(bookings: seq<Booking>, comments: seq<Comment>, itemIds: seq<int>, now: int): (r: Result<Joins>)
    ensures r.Failure? <==> !BatchesKeyed(bookings, itemIds, now)
    ensures r.Failure? ==> r.error == IllegalState
    ensures r.Success? ==> JoinsServe(r.value, bookings, comments, itemIds, now)
  {
    match ToMapByItem(FindLastBookingsForItems(bookings, itemIds, now))
    case Failure(e) => Failure(e)
    case Success(lastMap) =>
      match ToMapByItem(FindNextBookingsForItems(bookings, itemIds, now))
      case Failure(e) => Failure(e)
      case Success(nextMap) =>
        var groups := GroupByItem(CommentsOfAny(comments, itemIds));
        var j := Joins(lastMap, nextMap, groups);
        assert JoinsServe(j, bookings, comments, itemIds, now) by {
          forall id | id in itemIds
            ensures IsLastBookingOf(bookings, id, now, LookupByItem(lastMap, Some(id)))
            ensures IsNextBookingOf(bookings, id, now, LookupByItem(nextMap, Some(id)))
            ensures CommentsOrEmpty(groups, Some(id)) == CommentsOf(comments, id)
          {
            LastSlotFromBatch(bookings, itemIds, now, lastMap, id);
            NextSlotFromBatch(bookings, itemIds, now, nextMap, id);
            CommentsOfSubset(comments, itemIds, id);
          }
        }
        Success(j)
  }
}
