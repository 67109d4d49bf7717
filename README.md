# ShareIt core in Dafny

ShareIt is an item-sharing backend. Users list items, other users book
them for a time span, and the owner approves or rejects each booking.
Bookers who finished an approved booking may comment on the item. Users
may post requests for items they want, and an item may be listed as the
answer to a request. The repository holds two generations of the service:
the earlier `src` tree and the later `server` tree. This project models the
service logic of both, and the persistence queries beneath it.

- The repositories become functions over a table, which is a `seq`
  in insertion order. `ORDER BY start DESC` and `ORDER BY created DESC`
  become a stable descending insertion sort (`Seqs.SortDesc`), proved
  sorted, membership-exact and a permutation of the filtered rows.
- Services that only read become functions that return a `Result`. Every
  exception the Java code throws is a `Failure` with its kind: NotFound,
  Validation, Forbidden, Conflict, IllegalArgument, IllegalState, and
  IncorrectResultSize.
- Services that change stored state become classes:
  - `UserService.UserTable` is the earlier tree's in-memory `HashMap`
    with its `nextId` counter.
  - `BookingService.BookingStore`, the two `ItemStore`s and
    `ItemRequestService.RequestStore` are the tables that JPA saves into.
    Each has an identity counter that numbers new rows.
  - Every method states its whole new state and keeps a `Valid()`
    invariant: ids are unique and below the counter; for users, e-mails
    are also unique.
- Nullable Java fields (`Integer`, `String`, `Boolean`) are `Option`
  values. A stored item row satisfies `Persisted`, meaning its
  non-nullable columns are set.
- The clock (`LocalDateTime.now()`) is a `now: int` parameter. Instants
  are integers.
- The user service that the item, booking and request services call in
  the later tree is passed in as a `map<int, User>`. Its `getUserById`
  fails with NotFound exactly when the id is not a key.
- `BookingState.from` is taken as already applied. The state token is
  an `Option<BookingState>`, and `None` stands for an unknown string.
- The case-insensitive `LIKE` of `searchAvailableItems` is the
  `matches` parameter.

Where the earlier and later trees differ, each is modelled as written:
- In the earlier tree, CURRENT is the strict `start < now < end`, filtered
  in memory. In the later tree's queries, CURRENT is the inclusive
  `start <= now <= end`.
- The earlier item service checks that ids are non-null and positive, and
  returns an empty list for a blank search text. The later service does
  neither.
- Only the later tree links items to requests.

`src/main/java/ru/practicum/shareit/booking/BookingRepository.java` declares
five queries. Their text is identical to the first five of the later tree's
`BookingRepository`, so they are modelled once, in module
`BookingRepository`. The earlier `ItemServiceImpl` calls
`findLastBookingsForItems` and `findNextBookingsForItems`, which the earlier
`BookingRepository` does not declare. The model uses the later tree's
definitions for both.

## Model

| member | source | states |
|---|---|---|
| BookingRepository.FindByBookerId | src/main/java/ru/practicum/shareit/booking/BookingRepository.java:13 | The booker's bookings, newest start first, with each row as often as in the table. |
| BookingRepository.FindByItemOwnerId | src/main/java/ru/practicum/shareit/booking/BookingRepository.java:15 | The bookings of the owner's items, newest start first, with each row as often as in the table. |
| BookingRepository.FindCurrentBookingsByUser | server/src/main/java/ru/practicum/shareit/booking/BookingRepository.java:33-34 | Exactly the booker's bookings with start <= now <= end, each as often as it is stored, sorted by start descending. |
| BookingRepository.FindCurrentBookingsByOwner | server/src/main/java/ru/practicum/shareit/booking/BookingRepository.java:36-37 | Exactly the owner's bookings with start <= now <= end, each as often as it is stored, sorted by start descending. |
| BookingRepository.FindPastBookingsByUser | server/src/main/java/ru/practicum/shareit/booking/BookingRepository.java:39-40 | Exactly the booker's bookings that ended before now, each as often as it is stored, sorted by start descending. |
| BookingRepository.FindPastBookingsByOwner | server/src/main/java/ru/practicum/shareit/booking/BookingRepository.java:42-43 | Exactly the owner's bookings that ended before now, each as often as it is stored, sorted by start descending. |
| BookingRepository.FindFutureBookingsByUser | server/src/main/java/ru/practicum/shareit/booking/BookingRepository.java:45-46 | Exactly the booker's bookings that start after now, each as often as it is stored, sorted by start descending. |
| BookingRepository.FindFutureBookingsByOwner | server/src/main/java/ru/practicum/shareit/booking/BookingRepository.java:48-49 | Exactly the owner's bookings that start after now, each as often as it is stored, sorted by start descending. |
| BookingRepository.FindWaitingBookingsByUser | server/src/main/java/ru/practicum/shareit/booking/BookingRepository.java:51-52 | Exactly the booker's WAITING bookings, each as often as it is stored, sorted by start descending. |
| BookingRepository.FindWaitingBookingsByOwner | server/src/main/java/ru/practicum/shareit/booking/BookingRepository.java:54-55 | Exactly the owner's WAITING bookings, each as often as it is stored, sorted by start descending. |
| BookingRepository.FindRejectedBookingsByUser | server/src/main/java/ru/practicum/shareit/booking/BookingRepository.java:57-58 | Exactly the booker's REJECTED bookings, each as often as it is stored, sorted by start descending. |
| BookingRepository.FindRejectedBookingsByOwner | server/src/main/java/ru/practicum/shareit/booking/BookingRepository.java:60-61 | Exactly the owner's REJECTED bookings, each as often as it is stored, sorted by start descending. |
| BookingRepository.MaxStartBefore | server/src/main/java/ru/practicum/shareit/booking/BookingRepository.java:68-73 | The correlated MAX subquery: absent iff the item has no approved booking started before now; otherwise attained by one such booking and an upper bound of all of them. |
| BookingRepository.MinStartAfter | server/src/main/java/ru/practicum/shareit/booking/BookingRepository.java:82-87 | The correlated MIN subquery: absent iff the item has no approved booking starting after now; otherwise attained by one such booking and a lower bound of all of them. |
| BookingRepository.FindLastBookingsForItems | server/src/main/java/ru/practicum/shareit/booking/BookingRepository.java:63-75 | A subsequence of the table holding exactly the bookings of the listed items that are latest among their item's approved bookings started before now (ties all kept). |
| BookingRepository.MaxStartIsLatest | server/src/main/java/ru/practicum/shareit/booking/BookingRepository.java:68-73 | For an approved booking started before now, its start equals the subquery's MAX iff no approved booking of its item started later before now. |
| BookingRepository.FindNextBookingsForItems | server/src/main/java/ru/practicum/shareit/booking/BookingRepository.java:77-89 | A subsequence of the table holding exactly the bookings of the listed items that are earliest among their item's approved bookings starting after now (ties all kept). |
| BookingRepository.MinStartIsEarliest | server/src/main/java/ru/practicum/shareit/booking/BookingRepository.java:82-87 | For an approved booking starting after now, its start equals the subquery's MIN iff no approved booking of its item starts sooner after now. |
| BookingRepository.LastBookingCandidates | server/src/main/java/ru/practicum/shareit/booking/BookingRepository.java:17-21 | The rows the findLastBooking query selects: that item and status, started before now, newest first, each as often as in the table. |
| BookingRepository.FindLastBookingAsWritten | server/src/main/java/ru/practicum/shareit/booking/BookingRepository.java:17-22 | The single-result method as declared: null for no row, that row for one, IncorrectResultSize for more than one. |
| BookingRepository.TwoPastBookingsBreakFindLastBooking | src/main/java/ru/practicum/shareit/booking/BookingRepository.java:17-22 | Any two bookings of the item with the status that started before now make the as-written query fail. |
| BookingRepository.FindLastBooking | server/src/main/java/ru/practicum/shareit/booking/BookingRepository.java:17-22 | With the intended LIMIT 1: null iff no booking of the item with the status started before now; otherwise such a booking with the greatest start. |
| BookingRepository.FindNextBooking | server/src/main/java/ru/practicum/shareit/booking/BookingRepository.java:24-28 | Null iff the item has no approved booking starting after now; otherwise such a booking with the least start. |
| BookingRepository.ExistsByBookerIdAndItemIdAndEndBeforeAndStatus | server/src/main/java/ru/practicum/shareit/booking/BookingRepository.java:30-31 | True iff some booking of the item by the user with that status ended before the given instant. |
| BookingService.FilterBookings | src/main/java/ru/practicum/shareit/booking/BookingServiceImpl.java:100-112 | The stream filter keeps order (a subsequence), keeps exactly the bookings in the state with their multiplicities, is the identity for ALL and keeps a start-descending list sorted. |
| BookingService.TimeStatesDisjoint | src/main/java/ru/practicum/shareit/booking/BookingServiceImpl.java:104-106 | For a booking whose start is not after its end, CURRENT, PAST and FUTURE exclude one another. |
| BookingService.StrictCurrentWithinInclusive | src/main/java/ru/practicum/shareit/booking/BookingServiceImpl.java:104 | The earlier tree's strict CURRENT implies the later tree's inclusive one, and they differ exactly on bookings that start or end at now. |
| BookingService.GetUserBookings | src/main/java/ru/practicum/shareit/booking/BookingServiceImpl.java:81-88 | NotFound for an unknown user, then IllegalArgument for an unknown state; otherwise exactly the user's bookings in the state, newest start first, as a permutation of them. |
| BookingService.GetOwnerBookings | src/main/java/ru/practicum/shareit/booking/BookingServiceImpl.java:91-98 | NotFound for an unknown owner, then IllegalArgument for an unknown state; otherwise exactly the bookings of the owner's items in the state, newest start first, as a permutation of them. |
| BookingService.FindBooking | src/main/java/ru/practicum/shareit/booking/BookingServiceImpl.java:119-122 | A stored booking with that id, or none iff no booking has it. |
| BookingService.GetBookingById | src/main/java/ru/practicum/shareit/booking/BookingServiceImpl.java:71-78 | NotFound iff no booking has the id; a success is that booking and the caller is its booker or its item's owner; Forbidden only for a booking of that id the caller is no party to. |
| BookingService.BookingReadableByPartiesOnly | src/main/java/ru/practicum/shareit/booking/BookingServiceImpl.java:73-76 | With unique ids, reading a stored booking succeeds iff the caller is its booker or its item's owner, and fails with Forbidden otherwise. |
| BookingService.Decide | src/main/java/ru/practicum/shareit/booking/BookingServiceImpl.java:59-66 | Forbidden for anyone but the item's owner, checked first; then Validation unless WAITING; otherwise APPROVED or REJECTED by the flag, nothing else changed. |
| BookingService.DecisionIsFinal | src/main/java/ru/practicum/shareit/booking/BookingServiceImpl.java:62-64 | Once decided, a booking can be decided again by nobody: the owner gets Validation, anyone else Forbidden. |
| BookingService.BookableItem | src/main/java/ru/practicum/shareit/booking/BookingServiceImpl.java:32-44 | The createBooking guards in order: NotFound for an unknown booker, a null item id or an unknown item; Validation for an unavailable item; Forbidden for the owner; otherwise the stored, available item of someone else. Conversely, for a known booker and a stored item, an unavailable item gives Validation, an own available item Forbidden, and any other available item success. |
| BookingService.BookingAllowed | src/main/java/ru/practicum/shareit/booking/BookingServiceImpl.java:32-44 | A known booker who does not own an available stored item can book it. |
| BookingService.BookingStore.constructor | src/main/java/ru/practicum/shareit/booking/BookingServiceImpl.java:26 | An empty bookings table whose first id is 1. |
| BookingService.BookingStore.CreateBooking | src/main/java/ru/practicum/shareit/booking/BookingServiceImpl.java:31-54 | Fails exactly as the guards do, changing nothing; otherwise appends a WAITING booking of the item by the caller for the given span under a fresh id. |
| BookingService.BookingStore.ApproveBooking | src/main/java/ru/practicum/shareit/booking/BookingServiceImpl.java:57-68 | NotFound iff no booking has the id; otherwise the decision on that booking, which replaces it in place on success; failures change nothing. |
| BookingService.ApproveTwice | src/main/java/ru/practicum/shareit/booking/BookingServiceImpl.java:62-64 | A second approval or rejection after a successful one fails with Validation. |
| Domain.CommentsOf | src/main/java/ru/practicum/shareit/comments/CommentRepository.java:9 | Exactly the item's comments, in table order. |
| Domain.CommentsOfAny | src/main/java/ru/practicum/shareit/comments/CommentRepository.java:11 | Exactly the comments of the listed items. |
| ItemEnrichment.ToMapByItem | server/src/main/java/ru/practicum/shareit/item/ItemServiceImpl.java:90-94 | `Collectors.toMap` by item id: IllegalState iff two bookings share an item; otherwise keys are exactly the item ids, each mapped to its booking. |
| ItemEnrichment.GroupByItem | server/src/main/java/ru/practicum/shareit/item/ItemServiceImpl.java:97-98 | `groupingBy` item id: keys are exactly the items with comments, each holding that item's comments in encounter order. |
| ItemEnrichment.CommentsOfSubset | server/src/main/java/ru/practicum/shareit/item/ItemServiceImpl.java:96-98 | One item's comments read out of the batch for a set of items containing it are exactly its comments. |
| ItemEnrichment.LastSlotFromBatch | server/src/main/java/ru/practicum/shareit/item/ItemServiceImpl.java:87-103 | When the batch keys uniquely, the map lookup gives null iff the item has no approved booking started before now, and otherwise a latest such booking. |
| ItemEnrichment.NextSlotFromBatch | server/src/main/java/ru/practicum/shareit/item/ItemServiceImpl.java:88-106 | When the batch keys uniquely, the map lookup gives null iff the item has no approved booking starting after now, and otherwise an earliest such booking. |
| ItemEnrichment.SingleQueriesFillSlots | server/src/main/java/ru/practicum/shareit/item/ItemServiceImpl.java:127-131 | The single-item last and next queries satisfy the same slot meaning as the batch lookups. |
| ItemEnrichment.JoinForItems | server/src/main/java/ru/practicum/shareit/item/ItemServiceImpl.java:84-98 | IllegalState iff a batch has two bookings of one item; otherwise maps giving each listed item its last and next booking and exactly its comments. |
| ItemRequestRepository.FindById | server/src/main/java/ru/practicum/shareit/request/ItemRequestRepository.java:10 | A stored request with the id, or none iff no request has it. |
| ItemRequestRepository.FindByRequestorIdOrderByCreatedDesc | server/src/main/java/ru/practicum/shareit/request/ItemRequestRepository.java:11 | Exactly the user's own requests, each as often as stored, newest first. |
| ItemRequestRepository.FindAllExcludingUser | server/src/main/java/ru/practicum/shareit/request/ItemRequestRepository.java:13-14 | Exactly the other users' requests, each as often as stored, newest first. |
| ItemRequestRepository.ListingsPartition | server/src/main/java/ru/practicum/shareit/request/ItemRequestRepository.java:11-14 | For one user the two listings share no request and together are the whole table as a multiset. |
| ItemRequestService.ToResponseDto | server/src/main/java/ru/practicum/shareit/request/ItemRequestServiceImpl.java:68-77 | The request's id, description and time, with one item DTO per given item in order, each mapping back to its item; those DTOs carry the request's id when the items answer it. |
| ItemRequestService.ResponseFor | server/src/main/java/ru/practicum/shareit/request/ItemRequestServiceImpl.java:62-63 | The response holds the DTOs of exactly the items whose request has the request's id, each carrying that id. |
| ItemRequestService.ToResponseDtoList | server/src/main/java/ru/practicum/shareit/request/ItemRequestServiceImpl.java:59-66 | Same length and order as the requests, each response that of its request. |
| ItemRequestService.ResponsesKeepOrder | server/src/main/java/ru/practicum/shareit/request/ItemRequestServiceImpl.java:59-66 | Responses of a newest-first request list are newest first. |
| ItemRequestService.ResponsesCover | server/src/main/java/ru/practicum/shareit/request/ItemRequestServiceImpl.java:59-66 | Each response is one of the listed requests' and each listed request has its response. |
| ItemRequestService.GetRequestsByUserId | server/src/main/java/ru/practicum/shareit/request/ItemRequestServiceImpl.java:37-42 | NotFound iff the user is unknown; otherwise responses for exactly the user's own requests, newest first, one per row of the requestor's listing, so each request is answered as often as it is stored. |
| ItemRequestService.GetAllRequests | server/src/main/java/ru/practicum/shareit/request/ItemRequestServiceImpl.java:44-49 | NotFound iff the user is unknown; otherwise responses for exactly the other users' requests (never the caller's), newest first, one per row of the listing of everybody else's requests. |
| ItemRequestService.GetRequestById | server/src/main/java/ru/practicum/shareit/request/ItemRequestServiceImpl.java:51-57 | NotFound iff no request has the id; otherwise the response of a stored request with that id. |
| ItemRequestService.ByIdFindsUnique | server/src/main/java/ru/practicum/shareit/request/ItemRequestServiceImpl.java:51-57 | With unique ids, reading by a stored request's id answers that request. |
| ItemRequestService.ListedForAuthorOnly | server/src/main/java/ru/practicum/shareit/request/ItemRequestServiceImpl.java:37-49 | A known user's stored request is in that user's own listing and in every other known user's listing of others' requests. |
| ItemRequestService.RequestStore.constructor | server/src/main/java/ru/practicum/shareit/request/ItemRequestServiceImpl.java:23 | An empty request table whose first id is 1. |
| ItemRequestService.RequestStore.CreateRequest | server/src/main/java/ru/practicum/shareit/request/ItemRequestServiceImpl.java:27-35 | NotFound iff the user is unknown, changing nothing; otherwise appends the request stamped now under a fresh id and returns it with no items. |
| ItemRequestService.CreateThenRead | server/src/main/java/ru/practicum/shareit/request/ItemRequestServiceImpl.java:27-57 | A posted request reads back by id and appears in its author's listing and in every other user's listing of others' requests. |
| ServerItemModel.FindById | server/src/main/java/ru/practicum/shareit/item/ItemRepository.java:10 | A stored item with the id, or none iff no item has it. |
| ServerItemModel.FindByOwnerId | server/src/main/java/ru/practicum/shareit/item/ItemRepository.java:11 | Exactly the owner's items, in table order. |
| ServerItemModel.FindByRequestId | server/src/main/java/ru/practicum/shareit/item/ItemRepository.java:19 | Exactly the items answering the request, in table order. |
| ServerItemModel.SearchAvailableItems | server/src/main/java/ru/practicum/shareit/item/ItemRepository.java:13-17 | Exactly the available items matching the text. |
| ServerItemMapper.ToDto | server/src/main/java/ru/practicum/shareit/item/ItemMapper.java:24-31 | The request id is the request's id or null without one, and mapping back with the item's owner and request restores the item. |
| ServerItemMapper.DtoRoundTrip | server/src/main/java/ru/practicum/shareit/item/ItemMapper.java:13-31 | toItem takes owner and request from its arguments; a DTO survives a round trip except that its request id becomes that of the given request, and survives exactly iff they agree. |
| ServerItemMapper.ToWithBookingsDto | server/src/main/java/ru/practicum/shareit/item/ItemMapper.java:34-45 | The fields toDto exposes, with the given bookings and comments passed through. |
| ServerItemService.CheckId | server/src/main/java/ru/practicum/shareit/item/ItemServiceImpl.java:165-168 | Validation iff no item has the id; otherwise that item. |
| ServerItemService.Update | server/src/main/java/ru/practicum/shareit/item/ItemServiceImpl.java:170-180 | Name and description replaced only by non-null, non-blank values, availability only by a non-null one; id, owner and request untouched. |
| ServerItemService.UpdateProperties | server/src/main/java/ru/practicum/shareit/item/ItemServiceImpl.java:170-180 | The patch is idempotent, an empty patch is the identity, and a complete row stays complete. |
| ServerItemService.IdsOf | server/src/main/java/ru/practicum/shareit/item/ItemServiceImpl.java:84 | One id per item, in order, each that item's id. |
| ServerItemService.GetItemsByOwner | server/src/main/java/ru/practicum/shareit/item/ItemServiceImpl.java:77-119 | NotFound for an unknown owner; an empty list without items; IllegalState iff a batch keys two bookings to one item; otherwise one entry per owned item, in order, with its fields, latest past and earliest future approved booking, and exactly its comments. |
| ServerItemService.GetItemById | server/src/main/java/ru/practicum/shareit/item/ItemServiceImpl.java:122-136 | NotFound for an unknown caller, then Validation for an unknown item, and success iff neither; otherwise its fields and comments, with last and next bookings for the owner only. |
| ServerItemService.SearchItems | server/src/main/java/ru/practicum/shareit/item/ItemServiceImpl.java:139-145 | Fails, with NotFound, iff the caller is unknown; otherwise DTOs of exactly the available items matching the text. |
| ServerItemService.ItemStore.constructor | server/src/main/java/ru/practicum/shareit/item/ItemServiceImpl.java:34-38 | Empty item and comment tables with counters at 1. |
| ServerItemService.ItemStore.AddItem | server/src/main/java/ru/practicum/shareit/item/ItemServiceImpl.java:52-64 | Fails, with NotFound and changing nothing, iff the owner is unknown or a given request id names no request; otherwise appends the DTO's item owned by the caller, answering the found request, under a fresh id. |
| ServerItemService.ItemStore.UpdateItem | server/src/main/java/ru/practicum/shareit/item/ItemServiceImpl.java:67-74 | Validation iff no item has the id; Forbidden iff the caller does not own it; no other failure; success iff the item exists and the caller owns it, the patched item then replacing it in place. |
| ServerItemService.ItemStore.AddComment | server/src/main/java/ru/practicum/shareit/item/ItemServiceImpl.java:148-163 | Validation for an unknown item, then NotFound for an unknown user, then Validation for a user without an approved booking of it that ended before now; succeeds iff none of these, appending the comment stamped now under a fresh id. |
| SrcItemModel.FindById | src/main/java/ru/practicum/shareit/item/ItemRepository.java:9 | A stored item with the id, or none iff no item has it. |
| SrcItemModel.FindByOwnerId | src/main/java/ru/practicum/shareit/item/ItemRepository.java:10 | Exactly the owner's items, in table order. |
| SrcItemModel.SearchAvailableItems | src/main/java/ru/practicum/shareit/item/ItemRepository.java:12-16 | Exactly the available items matching the text. |
| SrcItemMapper.ToDto | src/main/java/ru/practicum/shareit/item/ItemMapper.java:22-29 | Mapping back with the item's owner restores the item. |
| SrcItemMapper.DtoRoundTrip | src/main/java/ru/practicum/shareit/item/ItemMapper.java:12-29 | toItem takes the owner from its argument and a DTO survives the round trip exactly. |
| SrcItemMapper.ToWithBookingsDto | src/main/java/ru/practicum/shareit/item/ItemMapper.java:31-42 | The fields toDto exposes, with the given bookings and comments passed through. |
| SrcItemService.CheckOwner | src/main/java/ru/practicum/shareit/item/ItemServiceImpl.java:161-166 | Validation for a null or non-positive id, then NotFound for an unknown user; succeeds exactly for a known positive id. |
| SrcItemService.CheckOwnerBeforeLookup | src/main/java/ru/practicum/shareit/item/ItemServiceImpl.java:162-164 | A malformed id fails with Validation whatever users exist. |
| SrcItemService.CheckId | src/main/java/ru/practicum/shareit/item/ItemServiceImpl.java:168-174 | Validation for a null or non-positive id and for an id no item has; otherwise that item. |
| SrcItemService.Update | src/main/java/ru/practicum/shareit/item/ItemServiceImpl.java:176-186 | Name and description replaced only by non-null, non-blank values, availability only by a non-null one; id and owner untouched. |
| SrcItemService.UpdateProperties | src/main/java/ru/practicum/shareit/item/ItemServiceImpl.java:176-186 | The patch is idempotent, an empty patch is the identity, and a complete row stays complete. |
| SrcItemService.IdsOf | src/main/java/ru/practicum/shareit/item/ItemServiceImpl.java:71 | One id per item, in order, each that item's id. |
| SrcItemService.GetItemsByOwner | src/main/java/ru/practicum/shareit/item/ItemServiceImpl.java:64-106 | The owner check's failure; an empty list without items; IllegalState iff a batch keys two bookings to one item; otherwise one entry per owned item, in order, with its fields, last and next booking and exactly its comments. |
| SrcItemService.GetItemById | src/main/java/ru/practicum/shareit/item/ItemServiceImpl.java:109-123 | The owner check, then the item check (Validation); otherwise its fields and comments, with last and next bookings only when the caller owns it. |
| SrcItemService.SearchItems | src/main/java/ru/practicum/shareit/item/ItemServiceImpl.java:126-135 | An empty list for a null or blank text before the owner check; then the owner check's failure; success iff the text is null or blank or the owner check passes; otherwise DTOs of exactly the available matching items. |
| SrcItemService.ItemStore.constructor | src/main/java/ru/practicum/shareit/item/ItemServiceImpl.java:32-35 | Empty item and comment tables with counters at 1. |
| SrcItemService.ItemStore.AddItem | src/main/java/ru/practicum/shareit/item/ItemServiceImpl.java:47-51 | Fails exactly as the owner check does, changing nothing; otherwise appends the DTO's item owned by the caller under a fresh id. |
| SrcItemService.ItemStore.UpdateItem | src/main/java/ru/practicum/shareit/item/ItemServiceImpl.java:54-61 | Validation iff the item check fails; Forbidden iff the caller (possibly null) does not own it; no other failure; success iff the item check passes and the caller owns the item, the patched item then replacing it in place. |
| SrcItemService.ItemStore.AddComment | src/main/java/ru/practicum/shareit/item/ItemServiceImpl.java:138-158 | Validation for a null or blank text first, then the item check, then NotFound for an unknown user, then Validation without an approved booking of the item by the user that ended before now; succeeds iff an approved booking of the item by the user ended before now, appending the comment under a fresh id. |
| UserService.Patch | src/main/java/ru/practicum/shareit/user/UserServiceImpl.java:83-90 | Name and e-mail replaced only by non-null, non-blank values; the id kept. |
| UserService.PatchIdempotent | src/main/java/ru/practicum/shareit/user/UserServiceImpl.java:83-90 | Patching twice is patching once, and an empty patch changes nothing. |
| UserService.PatchKeepsEmailsDistinct | src/main/java/ru/practicum/shareit/user/UserServiceImpl.java:40-46 | A patch whose e-mail passed the conflict check keeps e-mails unique. |
| UserService.UserTable.constructor | src/main/java/ru/practicum/shareit/user/UserServiceImpl.java:19-20 | An empty map with nextId 1. |
| UserService.UserTable.CreateUser | src/main/java/ru/practicum/shareit/user/UserServiceImpl.java:26-33 | Conflict iff the e-mail is taken, changing nothing; otherwise stores the user under the fresh id nextId and increments it. |
| UserService.UserTable.UpdateUser | src/main/java/ru/practicum/shareit/user/UserServiceImpl.java:36-48 | NotFound for an unknown id; then Conflict iff the given e-mail is anyone's, the user's own included; then Validation for an all-null patch; success iff none of these, the patched user then replacing only that entry. |
| UserService.UserTable.GetUserById | src/main/java/ru/practicum/shareit/user/UserServiceImpl.java:58-64 | The stored user under the id, or NotFound iff absent. |
| UserService.UserTable.DeleteUser | src/main/java/ru/practicum/shareit/user/UserServiceImpl.java:67-69 | Removes the key, a no-op when absent; the counter is untouched. |
| UserService.UserTable.GetAllUsers | src/main/java/ru/practicum/shareit/user/UserServiceImpl.java:51-55 | Every stored user exactly once. |
| UserService.CreateThenGet | src/main/java/ru/practicum/shareit/user/UserServiceImpl.java:26-64 | A created user reads back with the name and e-mail it was given. |
| UserService.DeleteThenGet | src/main/java/ru/practicum/shareit/user/UserServiceImpl.java:58-69 | After a delete, reading the id fails with NotFound, and deleting again changes nothing. |

## Left out

- `BookingMapper`, `UserMapper`, `CommentMapper` and `ItemRequestMapper` are not part of this model. Bookings and comments are returned as entities. `toShortDto(null)` is taken to be null.
- The later tree's user service and the JPA user repository are not part of this model. Both are a `map<int, User>` parameter whose lookup fails with NotFound for a missing key.
- Bean validation (`@Valid`, `@NotBlank` and gateway checks) is not modelled. This is why `SrcItemService.ItemStore.AddItem` and `ServerItemService.ItemStore.AddItem` require a non-null name, description and availability: those columns are non-nullable.
- SrcItemService.ItemStore.AddItem: an id supplied in the DTO is ignored and a fresh one assigned. JPA's merge of an existing id is not modelled. The same holds for `ServerItemService.ItemStore.AddItem`.
- JPA `save` and identity generation are modelled as appending a row under a counter value. Transactions, flushing and lazy loading are left out.
- SQL tie order is unspecified. `ORDER BY … DESC` is modelled as a stable sort of the table in insertion order, and the unordered queries keep table order.
- UserService.UserTable.GetAllUsers: the `HashMap` iteration order is unspecified, so the contract states contents and length, not order.
- `String.toLowerCase` and the case-insensitive `LIKE` are folded into the `matches` parameter. Unicode case rules are not modelled.
- SrcItemService.GetItemById: the owner's last booking comes from the corrected `FindLastBooking` (the latest approved booking that started before now). The `IncorrectResultSizeDataAccessException` that the query as written raises for two such bookings is not modelled here; it is exhibited separately under "## Findings".
- ServerItemService.GetItemById: uses the corrected `FindLastBooking` in the same way, so the as-written failure for two approved past bookings is not modelled here either (see "## Findings").
- SrcItemService: the earlier tree's item service calls `userService.getUserById` (src/main/java/ru/practicum/shareit/item/ItemServiceImpl.java:145,165). The model instead takes a `users` map parameter standing for the contents of `UserService.UserTable.users`, and does not call the class.
- UserService.UserTable.CreateUser: `nextId` is a Java `int` (src/main/java/ru/practicum/shareit/user/UserServiceImpl.java:19). The model's counter is an unbounded integer, so the wrap-around after 2^31 - 1 creations is not modelled.
- `LocalDateTime.now()` is a parameter. Each call site in the source reads the clock separately, and the model uses one instant per operation.
- `BookingState.from` string parsing is reduced to an `Option<BookingState>`.
- Controllers, the gateway, HTTP status mapping and the exception handler are not part of this model, and neither is `findAllByRequestIds`, which no core operation calls.

## Findings

| source | as written | input that shows it | evidently intended | confidence | as-written member | corrected member |
|---|---|---|---|---|---|---|
| src/main/java/ru/practicum/shareit/booking/BookingRepository.java:17-22 (same text in server/src/main/java/ru/practicum/shareit/booking/BookingRepository.java:17-22) | `findLastBooking` selects every approved booking of the item that started before now, ordered by start, without `LIMIT`, yet returns a single `Booking`; a single-result query with two rows raises `IncorrectResultSizeDataAccessException` | an item with two APPROVED bookings that both started before now, viewed by its owner through `getItemById` | the latest such booking (`LIMIT 1`, as `findNextBooking` has) | not executed | BookingRepository.FindLastBookingAsWritten, BookingRepository.TwoPastBookingsBreakFindLastBooking | BookingRepository.FindLastBooking |
