/** The item-request queries of the later (`server`) tree: a user's own
    requests and everybody else's, each newest first. */
module ItemRequestRepository {
  import opened Base
  import opened Seqs
  import opened ServerItemModel

  /** The sort key of `ORDER BY created`. */
  function CreatedOf(q: ItemRequest): int { q.created }

  /** `findById`: the request with that id, if any. */
  function FindById(requests: seq<ItemRequest>, requestId: int): (r: Option<ItemRequest>)
    ensures r.Some? ==> r.value in requests && r.value.id == requestId
    ensures r.None? <==> forall q :: q in requests ==> q.id != requestId
  {
    FindFirst(requests, (q: ItemRequest) => q.id == requestId)
  }

  /** `findByRequestorIdOrderByCreatedDesc`: the user's own requests, newest
      first. */
  function FindByRequestorIdOrderByCreatedDesc(requests: seq<ItemRequest>, userId: int): (r: seq<ItemRequest>)
    ensures SortedDesc(r, CreatedOf)
    ensures forall q :: q in r <==> q in requests && q.requestorId == userId
    ensures forall q :: multiset(r)[q] == if q.requestorId == userId then multiset(requests)[q] else 0
  {
    var own := Filter(requests, (q: ItemRequest) => q.requestorId == userId);
    var r := SortDesc(own, CreatedOf);
    assert forall q :: q in r <==> q in multiset(own);
    r
  }

  /** `findAllExcludingUser`: every other user's requests, newest first. */
  function FindAllExcludingUser(requests: seq<ItemRequest>, userId: int): (r: seq<ItemRequest>)
    ensures SortedDesc(r, CreatedOf)
    ensures forall q :: q in r <==> q in requests && q.requestorId != userId
    ensures forall q :: multiset(r)[q] == if q.requestorId != userId then multiset(requests)[q] else 0
  {
    var others := Filter(requests, (q: ItemRequest) => q.requestorId != userId);
    var r := SortDesc(others, CreatedOf);
    assert forall q :: q in r <==> q in multiset(others);
    r
  }

  /** For one user, the two listings share no request and together hold
      every stored request exactly as often as the table does. */
  lemma ListingsPartition(requests: seq<ItemRequest>, userId: int)
    ensures forall q :: !(q in FindByRequestorIdOrderByCreatedDesc(requests, userId) &&
                          q in FindAllExcludingUser(requests, userId))
    ensures multiset(FindByRequestorIdOrderByCreatedDesc(requests, userId)) +
            multiset(FindAllExcludingUser(requests, userId)) == multiset(requests)
  {
    var own := FindByRequestorIdOrderByCreatedDesc(requests, userId);
    var others := FindAllExcludingUser(requests, userId);
    assert forall q :: (multiset(own) + multiset(others))[q] == multiset(requests)[q];
  }
}
