/** The item request service of the `src/` revision: creating a request,
    listing one's own requests and a page of everybody else's, and reading
    one request, each shown with the items listed in answer to it. */
module ItemRequestService {
  import opened Common
  import opened Tables
  import opened Entities
  import opened ItemRequestRepository
  import ItemRequestValidation
  import ItemRepository

  /** `ItemRequestDto` with its `items`. */
  datatype RequestView = RequestView(id: int, description: string, created: int, items: seq<Item>)

  /** `itemRequestToItemRequestDto`: the request's fields and the items
      whose request id is this request's; an empty list, never a missing
      one, when there are none. */
  function ToView(db: Db, q: ItemRequest): (r: RequestView)
    ensures r.id == q.id && r.description == q.description && r.created == q.created
    ensures forall i :: i in r.items <==> i in db.items.rows && i.requestId == Some(q.id)
  {
    RequestView(q.id, q.description, q.created, ItemRepository.FindItemsByRequests(db.items.rows, q.id))
  }

  /** `v` is the view of a stored request written by `userId`. */
  predicate ViewOfRequestBy(db: Db, v: RequestView, userId: int)
  {
    exists q | q in db.requests.rows && q.author.id == userId :: v == ToView(db, q)
  }

  /** `v` is the view of a stored request written by someone other than
      `userId`. */
  predicate ViewOfRequestNotBy(db: Db, v: RequestView, userId: int)
  {
    exists q | q in db.requests.rows && q.author.id != userId :: v == ToView(db, q)
  }

  function Views(db: Db, qs: seq<ItemRequest>): (r: seq<RequestView>)
    ensures |r| == |qs|
    ensures forall k | 0 <= k < |qs| :: r[k] == ToView(db, qs[k])
  {
    seq(|qs|, k requires 0 <= k < |qs| => ToView(db, qs[k]))
  }

  /** `addNewItemRequest`. The author is looked up first (`NotFound`), so an
      unknown user wins over a blank description; then a blank description
      is `Validation` and nothing is saved. The saved request gets the next
      id, the description, the caller as author and `now` as its creation
      time. */
  function AddNewItemRequest(db: Db, userId: int, description: Option<string>, now: int): (r: Result<(Db, RequestView)>)
    ensures FindUser(db, userId).None? ==> r == Err(NotFound)
    ensures FindUser(db, userId).Some? && IsBlank(description) ==> r == Err(Validation)
    ensures r.Ok? <==> FindUser(db, userId).Some? && !IsBlank(description)
    ensures r.Ok? ==>
              var (db', v) := r.value;
              var q := ItemRequest(db.requests.nextId, description.value, FindUser(db, userId).value, now);
              && db' == db.(requests := Insert(db.requests, q))
              && v == ToView(db', q)
  {
    match FindUser(db, userId)
    case None => Err(NotFound)
    case Some(author) =>
      if !ItemRequestValidation.IsValid(description) then Err(Validation)
      else
        var q := ItemRequest(db.requests.nextId, description.value, author, now);
        var db' := db.(requests := Insert(db.requests, q));
        Ok((db', ToView(db', q)))
  }

  /** A created request keeps the store valid and can then be read back by
      any existing user. */
  lemma CreatedRequestCanBeRead(db: Db, userId: int, description: Option<string>, now: int, reader: int)
    requires DbValid(db)
    requires AddNewItemRequest(db, userId, description, now).Ok?
    requires FindUser(db, reader).Some?
    ensures var (db', v) := AddNewItemRequest(db, userId, description, now).value;
            && DbValid(db')
            && GetRequestById(db', reader, v.id) == Ok(v)
  {
    var (db', v) := AddNewItemRequest(db, userId, description, now).value;
    var q := ItemRequest(db.requests.nextId, description.value, FindUser(db, userId).value, now);
    InsertKeepsValid(db.requests, RequestKey, q);
    FindUnique(db'.requests.rows, RequestKey, q);
  }

  /** `getOwnItemRequests`: `NotFound` for an unknown user; otherwise one
      view per own request, in the order of the query, newest first. */
  function GetOwnItemRequests(db: Db, userId: int): (r: Result<seq<RequestView>>)
    ensures r.Err? <==> FindUser(db, userId).None?
    ensures r.Err? ==> r.kind == NotFound
    ensures r.Ok? ==>
              var own := FindItemRequestsByAuthor(db.requests.rows, FindUser(db, userId).value);
              && |r.value| == |own|
              && (forall k | 0 <= k < |own| :: r.value[k] == ToView(db, own[k]))
              && (forall i, j | 0 <= i < j < |r.value| :: r.value[i].created >= r.value[j].created)
              && forall k | 0 <= k < |r.value| :: ViewOfRequestBy(db, r.value[k], userId)
  {
    match FindUser(db, userId)
    case None => Err(NotFound)
    case Some(author) =>
      Ok(OwnViews(db, author))
  }

  /** The views of the author's own requests, one per request and in the
      same order. */
  function OwnViews(db: Db, author: User): (r: seq<RequestView>)
    ensures var own := FindItemRequestsByAuthor(db.requests.rows, author);
            && |r| == |own|
            && forall k | 0 <= k < |own| :: r[k] == ToView(db, own[k])
    ensures forall i, j | 0 <= i < j < |r| :: r[i].created >= r[j].created
    ensures forall k | 0 <= k < |r| :: ViewOfRequestBy(db, r[k], author.id)
  {
    var own := FindItemRequestsByAuthor(db.requests.rows, author);
    var r := Views(db, own);
    forall k | 0 <= k < |r|
      ensures ViewOfRequestBy(db, r[k], author.id)
    {
      assert own[k] in own;
    }
    r
  }

  /** A created request is listed among its author's own requests. */
  lemma CreatedRequestListedForAuthor(db: Db, userId: int, description: Option<string>, now: int)
    requires AddNewItemRequest(db, userId, description, now).Ok?
    ensures var (db', v) := AddNewItemRequest(db, userId, description, now).value;
            GetOwnItemRequests(db', userId).Ok? && v in GetOwnItemRequests(db', userId).value
  {
    var (db', v) := AddNewItemRequest(db, userId, description, now).value;
    var author := FindUser(db, userId).value;
    var q := ItemRequest(db.requests.nextId, description.value, author, now);
    assert q in db'.requests.rows && v == ToView(db', q);
    OwnRequestListed(db', author, q);
  }

  /** A stored request of the author is shown among the author's own. */
  lemma OwnRequestListed(db: Db, author: User, q: ItemRequest)
    requires q in db.requests.rows && q.author.id == author.id
    ensures ToView(db, q) in OwnViews(db, author)
  {
    var own := FindItemRequestsByAuthor(db.requests.rows, author);
    assert q in own;
    var k :| 0 <= k < |own| && own[k] == q;
    assert OwnViews(db, author)[k] == ToView(db, q);
  }

  /** A created request is in every other user's unpaged listing. */
  lemma CreatedRequestListedForOthers(db: Db, userId: int, description: Option<string>, now: int, other: User)
    requires AddNewItemRequest(db, userId, description, now).Ok?
    requires other.id != userId
    ensures var db' := AddNewItemRequest(db, userId, description, now).value.0;
            db'.requests.rows[|db'.requests.rows| - 1] in OthersRequests(db'.requests.rows, other)
  {
    var db' := AddNewItemRequest(db, userId, description, now).value.0;
    assert db'.requests.rows[|db'.requests.rows| - 1].author.id == userId;
  }

  /** `r` shows, in order, the page of `all` that offset `from` falls in. */
  ghost predicate ShowsPage(db: Db, r: seq<RequestView>, all: seq<ItemRequest>, from: int, size: int)
    requires from >= 0 && size >= 1
  {
    var lo := PageStart(from, size);
    && |r| == (if lo >= |all| then 0 else Min(size, |all| - lo))
    && forall k | 0 <= k < |r| :: lo + k < |all| && r[k] == ToView(db, all[lo + k])
  }

  /** `getAllItemRequests`. The user is looked up first (`NotFound`), then
      the paging parameters are checked (`Validation`); otherwise the views
      of the page offset `from` falls in of the requests of other users,
      newest first. */
  function GetAllItemRequests(db: Db, from: int, size: int, userId: int): (r: Result<seq<RequestView>>)
    ensures FindUser(db, userId).None? ==> r == Err(NotFound)
    ensures FindUser(db, userId).Some? ==> (r.Err? <==> from < 0 || size < 1)
    ensures FindUser(db, userId).Some? && r.Err? ==> r == Err(Validation)
    ensures r.Ok? ==>
              && ShowsPage(db, r.value, OthersRequests(db.requests.rows, FindUser(db, userId).value), from, size)
              && |r.value| <= size
              && (forall i, j | 0 <= i < j < |r.value| :: r.value[i].created >= r.value[j].created)
              && forall k | 0 <= k < |r.value| :: ViewOfRequestNotBy(db, r.value[k], userId)
  {
    match FindUser(db, userId)
    case None => Err(NotFound)
    case Some(user) =>
      if from < 0 || size < 1 then Err(Validation)
      else Ok(OthersPage(db, user, from, size))
  }

  /** The page of the requests of other users that offset `from` falls
      in, newest first. */
  function OthersRequestPage(requests: seq<ItemRequest>, user: User, from: int, size: int): (r: seq<ItemRequest>)
    requires from >= 0 && size >= 1
    ensures IsPageOf(r, OthersRequests(requests, user), from, size)
    ensures |r| <= size
    ensures SortedByCreatedDesc(r)
    ensures forall q | q in r :: q in requests && q.author.id != user.id
  {
    var all := OthersRequests(requests, user);
    var r := FindAllItemRequests(requests, user, from / size, size);
    assert r == PageAt(all, from, size);
    r
  }

  /** The views of one page of the requests of other users. */
  function OthersPage(db: Db, user: User, from: int, size: int): (r: seq<RequestView>)
    requires from >= 0 && size >= 1
    ensures ShowsPage(db, r, OthersRequests(db.requests.rows, user), from, size)
    ensures |r| <= size
    ensures forall i, j | 0 <= i < j < |r| :: r[i].created >= r[j].created
    ensures forall k | 0 <= k < |r| :: ViewOfRequestNotBy(db, r[k], user.id)
  {
    var page := OthersRequestPage(db.requests.rows, user, from, size);
    var r := Views(db, page);
    ViewsShowPage(db, page, OthersRequests(db.requests.rows, user), from, size);
    forall k | 0 <= k < |r|
      ensures ViewOfRequestNotBy(db, r[k], user.id)
    {
      assert page[k] in page;
    }
    r
  }

  /** Paging the requests of others loses none: the request at position
      `n` of the unpaged query is shown when `from` is `n`. */
  lemma EveryOthersRequestOnItsPage(db: Db, userId: int, n: int, size: int)
    requires FindUser(db, userId).Some? && size >= 1
    requires 0 <= n < |OthersRequests(db.requests.rows, FindUser(db, userId).value)|
    ensures GetAllItemRequests(db, n, size, userId).Ok?
    ensures ToView(db, OthersRequests(db.requests.rows, FindUser(db, userId).value)[n])
            in GetAllItemRequests(db, n, size, userId).value
  {
    var all := OthersRequests(db.requests.rows, FindUser(db, userId).value);
    ShownOnItsPage(db, GetAllItemRequests(db, n, size, userId).value, all, n, size);
  }

  /** The views of a page show that page. */
  lemma ViewsShowPage(db: Db, page: seq<ItemRequest>, all: seq<ItemRequest>, from: int, size: int)
    requires from >= 0 && size >= 1
    requires IsPageOf(page, all, from, size)
    ensures ShowsPage(db, Views(db, page), all, from, size)
  {
  }

  /** The page offset `n` falls in shows the request at position `n`. */
  lemma ShownOnItsPage(db: Db, r: seq<RequestView>, all: seq<ItemRequest>, n: int, size: int)
    requires 0 <= n < |all| && size >= 1
    requires ShowsPage(db, r, all, n, size)
    ensures ToView(db, all[n]) in r
  {
    var lo := PageStart(n, size);
    assert r[n - lo] == ToView(db, all[n]);
  }

  /** `getRequestById`: the user must exist, then the request (both
      `NotFound`); any existing user may read any request. */
  function GetRequestById(db: Db, userId: int, requestId: int): (r: Result<RequestView>)
    ensures r.Err? <==> FindUser(db, userId).None? || FindRequest(db, requestId).None?
    ensures r.Err? ==> r.kind == NotFound
    ensures r.Ok? ==> r.value == ToView(db, FindRequest(db, requestId).value) && r.value.id == requestId
  {
    match FindUser(db, userId)
    case None => Err(NotFound)
    case Some(_) =>
      match FindRequest(db, requestId)
      case None => Err(NotFound)
      case Some(q) => Ok(ToView(db, q))
  }
}
