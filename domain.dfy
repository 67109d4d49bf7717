/** The entities both source trees share: users, bookings and their status,
    the requested booking state, comments, and the item listing entry. */
module Domain {
  import opened Base
  import opened Seqs

  /** A user row: id, name and a unique e-mail. */
  datatype User = User(id: int, name: string, email: string)

  /** `BookingStatus`: a booking is created WAITING and decided once. */
  datatype Status = Waiting | Approved | Rejected

  /** `BookingState`: the state a booking listing asks for. */
  datatype BookingState = All | Current | Past | Future | Waiting | Rejected

  /** A booking row. The item is represented by its id and its owner's id
      (the only item fields the booking rules and queries read; an item's
      owner never changes), the booker by the booker's id. */
  datatype Booking = Booking(
    id: int,
    start: int,
    end: int,
    itemId: int,
    itemOwnerId: int,
    bookerId: int,
    status: Status)

  /** The sort key of `Sort.by("start")` and of `ORDER BY b.start`. */
  function StartOf(b: Booking): int { b.start }

  /** A comment row: its text, the item and author it belongs to, and the
      instant it was stamped with. */
  datatype Comment = Comment(id: int, text: string, itemId: int, authorId: int, created: int)

  /** `ItemWithBookingsDto`: an item's public fields with its last and next
      booking (null when absent) and its comments. */
  datatype ItemWithBookingsDto = ItemWithBookingsDto(
    id: Option<int>,
    name: Option<string>,
    description: Option<string>,
    available: Option<bool>,
    lastBooking: Option<Booking>,
    nextBooking: Option<Booking>,
    comments: seq<Comment>)

  /** `CommentRepository.findByItemId`: the comments of one item, in table
      order. */
  function CommentsOf(comments: seq<Comment>, itemId: int): (r: seq<Comment>)
    ensures forall c :: c in r <==> c in comments && c.itemId == itemId
    ensures SubseqOf(r, comments)
  {
    Filter(comments, (c: Comment) => c.itemId == itemId)
  }

  /** `CommentRepository.findByItemIdIn`: the comments of any of the given
      items, in table order. */
  function CommentsOfAny(comments: seq<Comment>, itemIds: seq<int>): (r: seq<Comment>)
    ensures forall c :: c in r <==> c in comments && c.itemId in itemIds
  {
    Filter(comments, (c: Comment) => c.itemId in itemIds)
  }
}
