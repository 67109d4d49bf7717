/** The item-request service of the later (`server`) tree: posting a request,
    the caller's own requests and everybody else's, newest first, and one
    request by id, each response carrying the items that answer it. */
module ItemRequestService {
  import opened Base
  import opened Seqs
  import opened Domain
  import opened ServerItemModel
  import opened ServerItemMapper
  import ItemRequestRepository

  /** `ItemRequestResponseDto`: the request's id, text and time, with the
      answering items as DTOs. */
  datatype ItemRequestResponseDto = ItemRequestResponseDto(id: int, description: string, created: int, items: seq<ItemDto>)

  /** `toResponseDto(request, items)`: the request's fields with the given
      items mapped by `toDto`, one for one and in order. */
  function ToResponseDto(request: ItemRequest, items: seq<Item>): (r: ItemRequestResponseDto)
    ensures r.id == request.id && r.description == request.description && r.created == request.created
    ensures |r.items| == |items|
    ensures forall k :: 0 <= k < |items| ==> ToItem(r.items[k], items[k].ownerId, items[k].request) == items[k]
    ensures (forall i :: i in items ==> i.request == Some(request)) ==>
              forall d :: d in r.items ==> d.requestId == Some(request.id)
  {
    ItemRequestResponseDto(request.id, request.description, request.created,
                           seq(|items|, k requires 0 <= k < |items| => ToDto(items[k])))
  }

  /** The response for one stored request: its fields with the DTOs of
      exactly the items whose request has that id. */
  function ResponseFor(request: ItemRequest, allItems: seq<Item>): (r: ItemRequestResponseDto)
    ensures r.id == request.id && r.description == request.description && r.created == request.created
    ensures forall d :: d in r.items ==> d.requestId == Some(request.id)
    ensures forall d :: d in r.items <==>
              exists i :: i in allItems && i.request.Some? && i.request.value.id == request.id && d == ToDto(i)
  {
    var answering := FindByRequestId(allItems, request.id);
    var r := ToResponseDto(request, answering);
    assert forall d :: d in r.items <==> exists i :: i in answering && d == ToDto(i) by {
      forall d ensures d in r.items <==> exists i :: i in answering && d == ToDto(i) {
        if d in r.items {
          var k :| 0 <= k < |r.items| && r.items[k] == d;
          assert answering[k] in answering;
        }
        if exists i :: i in answering && d == ToDto(i) {
          var i :| i in answering && d == ToDto(i);
          var k :| 0 <= k < |answering| && answering[k] == i;
          assert r.items[k] == d;
        }
      }
    }
    r
  }

  /** `toResponseDtoList`: one response per request, in the requests'
      order, each carrying its own answering items. */
  function ToResponseDtoList(requests: seq<ItemRequest>, allItems: seq<Item>): (r: seq<ItemRequestResponseDto>)
    ensures |r| == |requests|
    ensures forall k :: 0 <= k < |r| ==> r[k] == ResponseFor(requests[k], allItems)
    ensures forall k :: 0 <= k < |r| ==> r[k].id == requests[k].id && r[k].created == requests[k].created
  {
    seq(|requests|, k requires 0 <= k < |requests| => ResponseFor(requests[k], allItems))
  }

  /** A listing of responses is newest first when its requests are. */
  lemma ResponsesKeepOrder(requests: seq<ItemRequest>, allItems: seq<Item>)
    requires SortedDesc(requests, ItemRequestRepository.CreatedOf)
    ensures var r := ToResponseDtoList(requests, allItems);
      forall i, j :: 0 <= i < j < |r| ==> r[i].created >= r[j].created
  {
    var r := ToResponseDtoList(requests, allItems);
    forall i, j | 0 <= i < j < |r| ensures r[i].created >= r[j].created {
      assert ItemRequestRepository.CreatedOf(requests[i]) >= ItemRequestRepository.CreatedOf(requests[j]);
    }
  }

  /** Every response of a listing is the response of one of its requests,
      and every request of the listing has its response there. */
  lemma ResponsesCover(requests: seq<ItemRequest>, allItems: seq<Item>)
    ensures var r := ToResponseDtoList(requests, allItems);
      && (forall k :: 0 <= k < |r| ==> requests[k] in requests && r[k] == ResponseFor(requests[k], allItems))
      && (forall q :: q in requests ==> ResponseFor(q, allItems) in r)
  {
    var r := ToResponseDtoList(requests, allItems);
    forall q | q in requests ensures ResponseFor(q, allItems) in r {
      var k :| 0 <= k < |requests| && requests[k] == q;
      assert r[k] == ResponseFor(q, allItems);
    }
  }

  /** `getRequestsByUserId`: NotFound for an unknown user; otherwise the
      responses for exactly the user's own requests, newest first, one per
      row of the repository listing (so a request stored twice is answered
      twice). */
  function GetRequestsByUserId(users: map<int, User>, requests: seq<ItemRequest>, allItems: seq<Item>, userId: int)
    : (r: Result<seq<ItemRequestResponseDto>>)
    ensures r.Failure? <==> userId !in users
    ensures r.Failure? ==> r.error == NotFound
    ensures r.Success? ==> forall i, j :: 0 <= i < j < |r.value| ==> r.value[i].created >= r.value[j].created
    ensures r.Success? ==> forall k :: 0 <= k < |r.value| ==>
              exists q :: q in requests && q.requestorId == userId && r.value[k] == ResponseFor(q, allItems)
    ensures r.Success? ==> forall q :: q in requests && q.requestorId == userId ==> ResponseFor(q, allItems) in r.value
    ensures r.Success? ==>
              var own := ItemRequestRepository.FindByRequestorIdOrderByCreatedDesc(requests, userId);
              && |r.value| == |own|
              && forall k :: 0 <= k < |own| ==> r.value[k] == ResponseFor(own[k], allItems)
  {
    if userId !in users then Failure(NotFound)
    else
      var own := ItemRequestRepository.FindByRequestorIdOrderByCreatedDesc(requests, userId);
      ResponsesKeepOrder(own, allItems);
      ResponsesCover(own, allItems);
      Success(ToResponseDtoList(own, allItems))
  }

  /** `getAllRequests`: NotFound for an unknown user; otherwise the
      responses for exactly the other users' requests, newest first, one per
      row of the repository listing. */
  function GetAllRequests(users: map<int, User>, requests: seq<ItemRequest>, allItems: seq<Item>, userId: int)
    : (r: Result<seq<ItemRequestResponseDto>>)
    ensures r.Failure? <==> userId !in users
    ensures r.Failure? ==> r.error == NotFound
    ensures r.Success? ==> forall i, j :: 0 <= i < j < |r.value| ==> r.value[i].created >= r.value[j].created
    ensures r.Success? ==> forall k :: 0 <= k < |r.value| ==>
              exists q :: q in requests && q.requestorId != userId && r.value[k] == ResponseFor(q, allItems)
    ensures r.Success? ==> forall q :: q in requests && q.requestorId != userId ==> ResponseFor(q, allItems) in r.value
    ensures r.Success? ==>
              var others := ItemRequestRepository.FindAllExcludingUser(requests, userId);
              && |r.value| == |others|
              && forall k :: 0 <= k < |others| ==> r.value[k] == ResponseFor(others[k], allItems)
  {
    if userId !in users then Failure(NotFound)
    else
      var others := ItemRequestRepository.FindAllExcludingUser(requests, userId);
      ResponsesKeepOrder(others, allItems);
      ResponsesCover(others, allItems);
      Success(ToResponseDtoList(others, allItems))
  }

  /** `getRequestById`: NotFound when no request has the id; otherwise the
      response for the stored request with that id. */
  function GetRequestById(requests: seq<ItemRequest>, allItems: seq<Item>, requestId: int): (r: Result<ItemRequestResponseDto>)
    ensures r.Failure? <==> forall q :: q in requests ==> q.id != requestId
    ensures r.Failure? ==> r.error == NotFound
    ensures r.Success? ==> r.value.id == requestId
    ensures r.Success? ==> exists q :: q in requests && q.id == requestId && r.value == ResponseFor(q, allItems)
  {
    match ItemRequestRepository.FindById(requests, requestId)
    case None => Failure(NotFound)
    case Some(q) => Success(ResponseFor(q, allItems))
  }

  /** With unique ids, the request at index `k` is the one `getRequestById`
      answers for its id. */
  lemma ByIdFindsUnique(requests: seq<ItemRequest>, k: int, allItems: seq<Item>)
    requires 0 <= k < |requests|
    requires forall i, j :: 0 <= i < j < |requests| ==> requests[i].id != requests[j].id
    ensures GetRequestById(requests, allItems, requests[k].id) == Success(ResponseFor(requests[k], allItems))
  {
    var found := ItemRequestRepository.FindById(requests, requests[k].id);
    assert requests[k] in requests;
    var m :| 0 <= m < |requests| && requests[m] == found.value;
    assert m == k;
  }

  /** A stored request of a known user is in that user's own listing and in
      every other known user's listing of everybody else's. */
  lemma ListedForAuthorOnly(users: map<int, User>, requests: seq<ItemRequest>, k: int, allItems: seq<Item>)
    requires 0 <= k < |requests| && requests[k].requestorId in users
    ensures ResponseFor(requests[k], allItems) in GetRequestsByUserId(users, requests, allItems, requests[k].requestorId).value
    ensures forall other :: other in users && other != requests[k].requestorId ==>
              ResponseFor(requests[k], allItems) in GetAllRequests(users, requests, allItems, other).value
  {
    assert requests[k] in requests;
  }

  /** The item-request table with the identity counter that numbers new
      rows. */
  class RequestStore {
    var requests: seq<ItemRequest>
    var nextId: int

    /** Request ids are positive, below the counter, and unique. */
    ghost predicate Valid()
      reads this
    {
      && nextId >= 1
      && (forall k :: 0 <= k < |requests| ==> 1 <= requests[k].id < nextId)
      && (forall i, j :: 0 <= i < j < |requests| ==> requests[i].id != requests[j].id)
    }

    /** An empty table whose first id is 1. */
    constructor ()
      ensures Valid()
      ensures requests == [] && nextId == 1
    {
      requests := [];
      nextId := 1;
    }

    /** `createRequest`: NotFound for an unknown user, leaving the table as
        it was; otherwise stores the request, stamped `now`, under a fresh
        id and returns it with no items. */
    method CreateRequest(users: map<int, User>, userId: int, description: string, now: int)
      returns (r: Result<ItemRequestResponseDto>)
      requires Valid()
      modifies this
      ensures Valid()
      ensures r.Failure? <==> userId !in users
      ensures r.Failure? ==> r.error == NotFound && requests == old(requests) && nextId == old(nextId)
      ensures r.Success? ==>
                && requests == old(requests) + [ItemRequest(old(nextId), description, userId, now)]
                && nextId == old(nextId) + 1
                && r.value == ItemRequestResponseDto(old(nextId), description, now, [])
    {
      if userId !in users {
        return Failure(NotFound);
      }
      var q := ItemRequest(nextId, description, userId, now);
      requests := requests + [q];
      nextId := nextId + 1;
      r := Success(ToResponseDto(q, []));
    }
  }

  /** A posted request reads back by its id with the text and time it was
      given, and is among its author's own requests and nobody else's. */
  method CreateThenRead(store: RequestStore, users: map<int, User>, allItems: seq<Item>, userId: int, description: string, now: int)
    returns (r: Result<ItemRequestResponseDto>)
    requires store.Valid()
    modifies store
    ensures store.Valid()
    ensures r.Success? <==> userId in users
    ensures r.Success? ==>
              var q := ItemRequest(r.value.id, description, userId, now);
              && GetRequestById(store.requests, allItems, r.value.id) == Success(ResponseFor(q, allItems))
              && ResponseFor(q, allItems) in GetRequestsByUserId(users, store.requests, allItems, userId).value
              && forall other :: other in users && other != userId ==>
                   ResponseFor(q, allItems) in GetAllRequests(users, store.requests, allItems, other).value
  {
    r := store.CreateRequest(users, userId, description, now);
    if r.Success? {
      ghost var reqs := store.requests;
      ghost var k := |reqs| - 1;
      assert reqs[k] == ItemRequest(r.value.id, description, userId, now);
      ByIdFindsUnique(reqs, k, allItems);
      ListedForAuthorOnly(users, reqs, k, allItems);
    }
  }
}
