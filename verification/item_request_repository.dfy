/** The two request queries of the JPA repository: the user's own requests
    and everybody else's, both newest first. */
module ItemRequestRepository {
  import opened Common
  import opened Tables
  import opened Entities

  /** `order by ir.created desc` holds along `s`. */
  predicate SortedByCreatedDesc(s: seq<ItemRequest>)
  {
    forall i, j | 0 <= i < j < |s| :: s[i].created >= s[j].created
  }

  function OrderByCreatedDesc(s: seq<ItemRequest>): (r: seq<ItemRequest>)
    ensures SortedByCreatedDesc(r)
    ensures multiset(r) == multiset(s)
  {
    var r := SortBy(s, CreatedDescKey);
    assert forall i, j | 0 <= i < j < |r| :: CreatedDescKey(r[i]) <= CreatedDescKey(r[j]);
    r
  }

  /** `findItemRequestsByAuthor`: exactly the requests the user wrote,
      newest first. Entities compare by primary key. */
  function FindItemRequestsByAuthor(requests: seq<ItemRequest>, author: User): (r: seq<ItemRequest>)
    ensures forall q :: multiset(r)[q] == if q.author.id == author.id then multiset(requests)[q] else 0
    ensures forall q :: q in r <==> q in requests && q.author.id == author.id
    ensures SortedByCreatedDesc(r)
  {
    OrderByCreatedDesc(Filter(requests, (q: ItemRequest) => q.author.id == author.id))
  }

  /** `findAllItemRequests` before paging: exactly the requests somebody
      else wrote, newest first. */
  function OthersRequests(requests: seq<ItemRequest>, user: User): (r: seq<ItemRequest>)
    ensures forall q :: multiset(r)[q] == if q.author.id != user.id then multiset(requests)[q] else 0
    ensures forall q :: q in r <==> q in requests && q.author.id != user.id
    ensures SortedByCreatedDesc(r)
  {
    OrderByCreatedDesc(Filter(requests, (q: ItemRequest) => q.author.id != user.id))
  }

  /** `findAllItemRequests`: one page of the requests of other users. */
  function FindAllItemRequests(requests: seq<ItemRequest>, user: User, page: int, size: int): (r: seq<ItemRequest>)
    requires page >= 0 && size >= 1
    ensures r == Page(OthersRequests(requests, user), page, size)
    ensures |r| <= size
    ensures forall q | q in r :: q in requests && q.author.id != user.id
    ensures SortedByCreatedDesc(r)
  {
    var all := OthersRequests(requests, user);
    assert SortedBy(all, CreatedDescKey);
    PageIsSubset(all, page, size);
    PageKeepsSorted(all, page, size, CreatedDescKey);
    var r := Page(all, page, size);
    assert forall i, j | 0 <= i < j < |r| :: CreatedDescKey(r[i]) <= CreatedDescKey(r[j]);
    r
  }

  /** The user's own requests and everybody else's split the stored requests:
      together they hold every stored request exactly as often as it is
      stored, and no request is in both. */
  lemma OwnAndOthersPartition(requests: seq<ItemRequest>, user: User)
    ensures multiset(FindItemRequestsByAuthor(requests, user)) + multiset(OthersRequests(requests, user))
            == multiset(requests)
    ensures forall q | q in FindItemRequestsByAuthor(requests, user) :: q !in OthersRequests(requests, user)
  {
    var own := FindItemRequestsByAuthor(requests, user);
    var others := OthersRequests(requests, user);
    forall q
      ensures (multiset(own) + multiset(others))[q] == multiset(requests)[q]
    {
      if q.author.id == user.id {
        assert multiset(others)[q] == 0;
      } else {
        assert multiset(own)[q] == 0;
      }
    }
    assert multiset(own) + multiset(others) == multiset(requests);
  }
}
