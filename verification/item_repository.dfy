/** The item queries of the JPA repository of the `server/` revision. */
module ItemRepository {
  import opened Common
  import opened Tables
  import opened Entities
  import opened Text

  /** `order by i.id asc` holds along `s`. */
  predicate SortedById(s: seq<Item>)
  {
    forall i, j | 0 <= i < j < |s| :: s[i].id <= s[j].id
  }

  /** `findItemsForUser`: exactly the items owned by `user`, each with its
      stored multiplicity, in ascending id order. */
  function FindItemsForUser(items: seq<Item>, user: User): (r: seq<Item>)
    ensures forall i :: i in r <==> i in items && i.ownerId == user.id
    ensures forall i :: multiset(r)[i] == if i.ownerId == user.id then multiset(items)[i] else 0
    ensures SortedById(r)
  {
    var r := SortBy(Filter(items, (i: Item) => i.ownerId == user.id), ItemKey);
    assert forall a, b | 0 <= a < b < |r| :: ItemKey(r[a]) <= ItemKey(r[b]);
    r
  }

  /** Every item `findItemsForUser` returns is a stored item of the user. */
  lemma FoundItemIsOwned(items: seq<Item>, user: User, k: int)
    requires 0 <= k < |FindItemsForUser(items, user)|
    ensures exists m | 0 <= m < |items| :: items[m] == FindItemsForUser(items, user)[k]
    ensures FindItemsForUser(items, user)[k].ownerId == user.id
  {
    var it := FindItemsForUser(items, user)[k];
    assert it in FindItemsForUser(items, user);
  }

  /** `findItemsForUserWithPage`: the same query and order, one page of
      it. */
  function FindItemsForUserWithPage(items: seq<Item>, user: User, page: int, size: int): (r: seq<Item>)
    requires page >= 0 && size >= 1
    ensures r == Page(FindItemsForUser(items, user), page, size)
    ensures |r| <= size
    ensures forall i | i in r :: i in items && i.ownerId == user.id
    ensures SortedById(r)
  {
    var all := FindItemsForUser(items, user);
    var r := Page(all, page, size);
    OwnedPageFacts(all, items, user, page, size);
    r
  }

  /** A page of the user's sorted items holds only the user's items, in
      ascending id order. */
  lemma OwnedPageFacts(all: seq<Item>, items: seq<Item>, user: User, page: int, size: int)
    requires page >= 0 && size >= 1
    requires all == FindItemsForUser(items, user)
    ensures forall i | i in Page(all, page, size) :: i in items && i.ownerId == user.id
    ensures SortedById(Page(all, page, size))
  {
    assert SortedBy(all, ItemKey);
    PageIsSubset(all, page, size);
    PageKeepsSorted(all, page, size, ItemKey);
    var r := Page(all, page, size);
    assert forall a, b | 0 <= a < b < |r| :: ItemKey(r[a]) <= ItemKey(r[b]);
  }

  /** The `where` clause of the text search: the item is available and its
      lower-cased name contains the lower-cased name text or its lower-cased
      description contains the lower-cased description text. */
  predicate MatchesSearch(i: Item, textName: string, textDesc: string)
  {
    && (ContainsIgnoringCase(i.name, textName) || ContainsIgnoringCase(i.description, textDesc))
    && i.available
  }

  /** The text search before paging; the query has no `order by`, so rows
      come in storage order. */
  function SearchAvailable(items: seq<Item>, textName: string, textDesc: string): (r: seq<Item>)
    ensures forall i :: i in r <==> i in items && MatchesSearch(i, textName, textDesc)
  {
    Filter(items, (i: Item) => MatchesSearch(i, textName, textDesc))
  }

  /** `findAvailableItemsByNameOrDescription`: one page of the search. Every
      result is available and matches the text. */
  function FindAvailableItemsByNameOrDescription(items: seq<Item>, textName: string, textDesc: string, page: int, size: int): (r: seq<Item>)
    requires page >= 0 && size >= 1
    ensures r == Page(SearchAvailable(items, textName, textDesc), page, size)
    ensures |r| <= size
    ensures forall i | i in r :: i in items && i.available && MatchesSearch(i, textName, textDesc)
  {
    var all := SearchAvailable(items, textName, textDesc);
    PageIsSubset(all, page, size);
    Page(all, page, size)
  }

  /** `findItemsByRequests`: exactly the items listed in answer to the request. */
  function FindItemsByRequests(items: seq<Item>, requestId: int): (r: seq<Item>)
    ensures forall i :: i in r <==> i in items && i.requestId == Some(requestId)
  {
    Filter(items, (i: Item) => i.requestId == Some(requestId))
  }
}
