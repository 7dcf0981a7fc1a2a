/** The item service of the `src/` revision: creating and updating items,
    reading one item or a page of them with the owner-only booking summary
    and the comments, searching, and adding a comment. */
module ItemService {
  import opened Common
  import opened Tables
  import opened Entities
  import opened BookingRepository
  import opened ItemValidation
  import ItemRepository
  import CommentValidation
  import BookingService
  import Text

  /** `LastAndNextBookingDto`: a booking shown on an item page. */
  datatype BookingRef = BookingRef(id: int, bookerId: int)

  /** `ItemDto`: the item's own fields, the request it answers, the booking
      summary and the comments. */
  datatype ItemView = ItemView(
    id: int,
    name: string,
    description: string,
    available: bool,
    requestId: Option<int>,
    lastBooking: Option<BookingRef>,
    nextBooking: Option<BookingRef>,
    comments: seq<Comment>)

  function RefOf(b: Option<Booking>): (r: Option<BookingRef>)
    ensures r.Some? <==> b.Some?
    ensures r.Some? ==> r.value.id == b.value.id && r.value.bookerId == b.value.booker.id
  {
    match b
    case None => None
    case Some(b) => Some(BookingRef(b.id, b.booker.id))
  }

  /** `findCommentsByItem`, in storage order; an empty sequence when the
      item has none, never a missing list. */
  function CommentsOf(db: Db, item: Item): (r: seq<Comment>)
    ensures forall c :: c in r <==> c in db.comments.rows && c.item.id == item.id
  {
    Filter(db.comments.rows, (c: Comment) => c.item.id == item.id)
  }

  /** Each comment of `cs`, in order, read with its current item and
      author. */
  function ResolveComments(db: Db, cs: seq<Comment>): (r: seq<Comment>)
    ensures |r| == |cs|
    ensures forall k | 0 <= k < |cs| :: r[k] == ResolvedComment(db, cs[k])
  {
    seq(|cs|, k requires 0 <= k < |cs| => ResolvedComment(db, cs[k]))
  }

  /** `itemToItemDto`: the item's fields; the last and next approved
      bookings around `now` only when the viewer owns the item (otherwise
      both absent); and all the item's comments in storage order, each read
      with its current item and author. */
  function ToView(db: Db, item: Item, userId: int, now: int): (r: ItemView)
    ensures && r.id == item.id && r.name == item.name && r.description == item.description
            && r.available == item.available && r.requestId == item.requestId
    ensures userId != item.ownerId ==> r.lastBooking.None? && r.nextBooking.None?
    ensures userId == item.ownerId ==>
              && r.lastBooking == RefOf(FindLastBooking(db.bookings.rows, item.id, now, BookingStatus.Approved))
              && r.nextBooking == RefOf(FindNextBooking(db.bookings.rows, item.id, now, BookingStatus.Approved))
    ensures |r.comments| == |CommentsOf(db, item)|
    ensures forall k | 0 <= k < |r.comments| :: r.comments[k] == ResolvedComment(db, CommentsOf(db, item)[k])
    ensures forall c | c in r.comments :: && c.item.id == item.id
                                          && (FindItem(db, item.id).Some? ==> c.item == FindItem(db, item.id).value)
  {
    var owner := userId == item.ownerId;
    ItemView(
      item.id, item.name, item.description, item.available, item.requestId,
      if owner then RefOf(FindLastBooking(db.bookings.rows, item.id, now, BookingStatus.Approved)) else None,
      if owner then RefOf(FindNextBooking(db.bookings.rows, item.id, now, BookingStatus.Approved)) else None,
      ResolveComments(db, CommentsOf(db, item)))
  }

  /** The comments an item shows are exactly the stored comments on that
      item, each read with its current item and author. */
  lemma ViewShowsStoredComments(db: Db, item: Item, userId: int, now: int)
    ensures forall c :: c in ToView(db, item, userId, now).comments
                        <==> exists s | s in db.comments.rows && s.item.id == item.id :: ResolvedComment(db, s) == c
  {
    var all := CommentsOf(db, item);
    var shown := ToView(db, item, userId, now).comments;
    forall c | c in shown
      ensures exists s | s in db.comments.rows && s.item.id == item.id :: ResolvedComment(db, s) == c
    {
      var k :| 0 <= k < |shown| && shown[k] == c;
      assert all[k] in all;
    }
    forall s | s in db.comments.rows && s.item.id == item.id
      ensures ResolvedComment(db, s) in shown
    {
      var k :| 0 <= k < |all| && all[k] == s;
      assert shown[k] == ResolvedComment(db, s);
    }
  }

  /** For its owner, an item shows a last booking exactly when an approved
      booking of it started before `now`, a next booking exactly when one
      starts after `now`, and the last one started before the next one. */
  lemma OwnerSeesBookingSummary(db: Db, item: Item, now: int)
    ensures var v := ToView(db, item, item.ownerId, now);
            && (v.lastBooking.Some? <==> exists b | b in db.bookings.rows :: LastCandidate(b, item.id, now, BookingStatus.Approved))
            && (v.nextBooking.Some? <==> exists b | b in db.bookings.rows :: NextCandidate(b, item.id, now, BookingStatus.Approved))
  {
  }

  function Views(db: Db, items: seq<Item>, userId: int, now: int): (r: seq<ItemView>)
    ensures |r| == |items|
    ensures forall k | 0 <= k < |items| :: r[k] == ToView(db, items[k], userId, now)
  {
    seq(|items|, k requires 0 <= k < |items| => ToView(db, items[k], userId, now))
  }

  /** `getRequestById` of this service: the id if such a request exists,
      otherwise nothing (the missing request is not an error). */
  function RequestLink(db: Db, requestId: int): (r: Option<int>)
    ensures r.Some? <==> FindRequest(db, requestId).Some?
    ensures r.Some? ==> r.value == requestId
  {
    if FindRequest(db, requestId).Some? then Some(requestId) else None
  }

  /** `addNewItem`. The body and owner id are validated first
      (`Validation`), then the owner must exist (`NotFound`). The item is
      saved under the next item id with the body's fields and the caller
      as owner; a request id that does not resolve leaves no request link
      rather than failing. */
  function AddNewItem(db: Db, body: ItemBody, userId: Option<int>, now: int): (r: Result<(Db, ItemView)>)
    ensures ItemValidation.Validate(body, userId).Fail? ==> r == Err(Validation)
    ensures ItemValidation.Validate(body, userId).Pass? && FindUser(db, userId.value).None? ==> r == Err(NotFound)
    ensures r.Ok? <==> ItemValidation.Validate(body, userId).Pass? && FindUser(db, userId.value).Some?
    ensures r.Ok? ==>
              var (db', v) := r.value;
              var item := Item(db.items.nextId, body.name.value, body.description.value, body.available.value,
                               userId.value, if body.requestId.Some? then RequestLink(db, body.requestId.value) else None);
              && db' == db.(items := Insert(db.items, item))
              && v == ToView(db', item, userId.value, now)
  {
    if ItemValidation.Validate(body, userId).Fail? then Err(Validation)
    else
      match FindUser(db, userId.value)
      case None => Err(NotFound)
      case Some(owner) =>
        var link := if body.requestId.Some? then RequestLink(db, body.requestId.value) else None;
        var item := Item(db.items.nextId, body.name.value, body.description.value, body.available.value, owner.id, link);
        var db' := db.(items := Insert(db.items, item));
        Ok((db', ToView(db', item, owner.id, now)))
  }

  /** A created item is stored with the caller as owner, and the store stays
      valid. */
  lemma AddNewItemKeepsStoreValid(db: Db, body: ItemBody, userId: Option<int>, now: int)
    requires DbValid(db)
    requires AddNewItem(db, body, userId, now).Ok?
    ensures var db' := AddNewItem(db, body, userId, now).value.0;
            && DbValid(db')
            && FindItem(db', db.items.nextId).Some?
            && FindItem(db', db.items.nextId).value.ownerId == userId.value
  {
    var (db', v) := AddNewItem(db, body, userId, now).value;
    var item := db'.items.rows[|db'.items.rows| - 1];
    InsertKeepsValid(db.items, ItemKey, item);
    FindUnique(db'.items.rows, ItemKey, item);
  }

  /** `checkFieldsForUpdate` followed by `updateItem`. A missing caller id
      is `InternalServer`, checked before the item lookup (`NotFound`),
      then the caller must own the item (`Forbidden`). The name,
      description and availability the body leaves null keep their stored
      values; the request link is taken from the body alone, so an update
      without a request id drops the stored link, and one whose request
      does not resolve also leaves none; finally the caller must exist
      (`NotFound`). The row is replaced under the same id and owner. */
  function UpdateItem(db: Db, itemId: int, body: ItemBody, userId: Option<int>, now: int): (r: Result<(Db, ItemView)>)
    ensures userId.None? ==> r == Err(InternalServer)
    ensures userId.Some? && FindItem(db, itemId).None? ==> r == Err(NotFound)
    ensures userId.Some? && FindItem(db, itemId).Some? && FindItem(db, itemId).value.ownerId != userId.value
            ==> r == Err(Forbidden)
    ensures (&& userId.Some? && FindItem(db, itemId).Some? && FindItem(db, itemId).value.ownerId == userId.value
             && FindUser(db, userId.value).None?)
            ==> r == Err(NotFound)
    ensures r.Ok? <==> && userId.Some? && FindItem(db, itemId).Some?
                       && FindItem(db, itemId).value.ownerId == userId.value
                       && FindUser(db, userId.value).Some?
    ensures r.Err? ==> r.kind in {InternalServer, NotFound, Forbidden}
    ensures r.Ok? ==>
              var (db', v) := r.value;
              var before := FindItem(db, itemId).value;
              && userId.Some? && FindItem(db, itemId).Some? && before.ownerId == userId.value
              && FindUser(db, userId.value).Some?
              && var after := Item(
                   itemId,
                   if body.name.Some? then body.name.value else before.name,
                   if body.description.Some? then body.description.value else before.description,
                   if body.available.Some? then body.available.value else before.available,
                   before.ownerId,
                   if body.requestId.Some? then RequestLink(db, body.requestId.value) else None);
                 && db' == db.(items := db.items.(rows := Replace(db.items.rows, ItemKey, after)))
                 && v == ToView(db', after, userId.value, now)
  {
    if userId.None? then Err(InternalServer)
    else
      match FindItem(db, itemId)
      case None => Err(NotFound)
      case Some(before) =>
        if userId.value != before.ownerId then Err(Forbidden)
        else
          match FindUser(db, userId.value)
          case None => Err(NotFound)
          case Some(owner) =>
            var after := Updated(db, before, body);
            var db' := db.(items := db.items.(rows := Replace(db.items.rows, ItemKey, after)));
            Ok((db', ToView(db', after, userId.value, now)))
  }

  /** The row an accepted update stores. */
  function Updated(db: Db, before: Item, body: ItemBody): (r: Item)
    ensures r.id == before.id && r.ownerId == before.ownerId
    ensures body == ItemBody(None, None, None, None) && before.requestId.None? ==> r == before
  {
    Item(
      before.id,
      if body.name.Some? then body.name.value else before.name,
      if body.description.Some? then body.description.value else before.description,
      if body.available.Some? then body.available.value else before.available,
      before.ownerId,
      if body.requestId.Some? then RequestLink(db, body.requestId.value) else None)
  }

  /** An accepted update replaces the item's row by `Updated`. */
  lemma UpdateItemStores(db: Db, itemId: int, body: ItemBody, userId: Option<int>, now: int)
    requires UpdateItem(db, itemId, body, userId, now).Ok?
    ensures FindItem(db, itemId).Some?
    ensures UpdateItem(db, itemId, body, userId, now).value.0
            == db.(items := db.items.(rows := Replace(db.items.rows, ItemKey, Updated(db, FindItem(db, itemId).value, body))))
  {
  }

  /** An update keeps the store valid. */
  lemma UpdateItemKeepsStoreValid(db: Db, itemId: int, body: ItemBody, userId: Option<int>, now: int)
    requires DbValid(db)
    requires UpdateItem(db, itemId, body, userId, now).Ok?
    ensures DbValid(UpdateItem(db, itemId, body, userId, now).value.0)
  {
    UpdateItemStores(db, itemId, body, userId, now);
    var before := FindItem(db, itemId).value;
    ReplaceKeepsValid(db.items, ItemKey, Updated(db, before, body));
  }

  /** An all-null body on an item without a request link changes nothing. */
  lemma EmptyUpdateChangesNothing(db: Db, itemId: int, userId: Option<int>, now: int)
    requires DbValid(db)
    requires UpdateItem(db, itemId, ItemBody(None, None, None, None), userId, now).Ok?
    requires FindItem(db, itemId).value.requestId.None?
    ensures UpdateItem(db, itemId, ItemBody(None, None, None, None), userId, now).value.0 == db
  {
    UpdateItemStores(db, itemId, ItemBody(None, None, None, None), userId, now);
    ReplaceWithSelf(db.items.rows, ItemKey, FindItem(db, itemId).value);
  }

  /** Bookings and comments refer to the item, so after an update they show
      the item as updated: the owner reading a booking of the item gets the
      new row, and so does every comment on the item's page. */
  lemma UpdatedItemShowsThroughReferences(db: Db, itemId: int, body: ItemBody, userId: Option<int>, now: int, bookingId: int)
    requires DbValid(db)
    requires UpdateItem(db, itemId, body, userId, now).Ok?
    requires FindBooking(db, bookingId).Some? && FindBooking(db, bookingId).value.item.id == itemId
    ensures var (db', v) := UpdateItem(db, itemId, body, userId, now).value;
            var after := Updated(db, FindItem(db, itemId).value, body);
            && BookingService.GetBookingById(db', userId.value, bookingId).Ok?
            && BookingService.GetBookingById(db', userId.value, bookingId).value.item == after
            && forall c | c in v.comments :: c.item == after
  {
    UpdateItemStores(db, itemId, body, userId, now);
    var (db', v) := UpdateItem(db, itemId, body, userId, now).value;
    var before := FindItem(db, itemId).value;
    var after := Updated(db, before, body);
    FindAfterReplace(db.items, ItemKey, after, itemId);
    assert FindItem(db', itemId) == Some(after);
    assert v == ToView(db', after, userId.value, now);
  }

  /** `getItemById`: `NotFound` for a missing item, else its view for the
      caller. */
  function GetItemById(db: Db, itemId: int, userId: int, now: int): (r: Result<ItemView>)
    ensures r.Err? <==> FindItem(db, itemId).None?
    ensures r.Err? ==> r.kind == NotFound
    ensures r.Ok? ==> r.value == ToView(db, FindItem(db, itemId).value, userId, now)
  {
    match FindItem(db, itemId)
    case None => Err(NotFound)
    case Some(item) => Ok(ToView(db, item, userId, now))
  }

  /** `r` shows, in order, the page of `all` that offset `from` falls in,
      each item as `userId` sees it. */
  ghost predicate ShowsPage(db: Db, r: seq<ItemView>, all: seq<Item>, from: int, size: int, userId: int, now: int)
    requires from >= 0 && size >= 1
  {
    var lo := PageStart(from, size);
    && |r| == (if lo >= |all| then 0 else Min(size, |all| - lo))
    && forall k | 0 <= k < |r| :: lo + k < |all| && r[k] == ToView(db, all[lo + k], userId, now)
  }

  /** The views of a page show that page. */
  lemma ViewsShowPage(db: Db, page: seq<Item>, all: seq<Item>, from: int, size: int, userId: int, now: int)
    requires from >= 0 && size >= 1
    requires IsPageOf(page, all, from, size)
    ensures ShowsPage(db, Views(db, page, userId, now), all, from, size, userId, now)
  {
  }

  /** The page offset `n` falls in shows the item at position `n`. */
  lemma ShownOnItsPage(db: Db, r: seq<ItemView>, all: seq<Item>, n: int, size: int, userId: int, now: int)
    requires 0 <= n < |all| && size >= 1
    requires ShowsPage(db, r, all, n, size, userId, now)
    ensures ToView(db, all[n], userId, now) in r
  {
    var lo := PageStart(n, size);
    assert r[n - lo] == ToView(db, all[n], userId, now);
  }

  /** The owner's items, the page offset `from` falls in, in ascending id
      order. */
  function OwnerPage(items: seq<Item>, user: User, from: int, size: int): (r: seq<Item>)
    requires from >= 0 && size >= 1
    ensures IsPageOf(r, ItemRepository.FindItemsForUser(items, user), from, size)
    ensures |r| <= size
    ensures forall i | i in r :: i in items && i.ownerId == user.id
    ensures ItemRepository.SortedById(r)
  {
    var all := ItemRepository.FindItemsForUser(items, user);
    var r := ItemRepository.FindItemsForUserWithPage(items, user, from / size, size);
    assert r == PageAt(all, from, size);
    r
  }

  /** `v` is the owner's view of a stored item owned by `userId`. */
  predicate OwnedView(db: Db, v: ItemView, userId: int, now: int)
  {
    exists it | it in db.items.rows && it.ownerId == userId :: v == ToView(db, it, userId, now)
  }

  /** The views of one page of the owner's items. */
  function OwnerViews(db: Db, user: User, from: int, size: int, now: int): (r: seq<ItemView>)
    requires from >= 0 && size >= 1
    ensures ShowsPage(db, r, ItemRepository.FindItemsForUser(db.items.rows, user), from, size, user.id, now)
    ensures |r| <= size
    ensures forall i, j | 0 <= i < j < |r| :: r[i].id <= r[j].id
    ensures forall k | 0 <= k < |r| :: OwnedView(db, r[k], user.id, now)
  {
    var page := OwnerPage(db.items.rows, user, from, size);
    var r := Views(db, page, user.id, now);
    ViewsShowPage(db, page, ItemRepository.FindItemsForUser(db.items.rows, user), from, size, user.id, now);
    forall k | 0 <= k < |r|
      ensures OwnedView(db, r[k], user.id, now)
    {
      assert page[k] in page;
    }
    r
  }

  /** `getAllItems`: paging parameters first (`Validation`), then the
      caller (`NotFound`); otherwise the views of the caller's own items on
      the page offset `from` falls in, in ascending id order. */
  function GetAllItems(db: Db, userId: int, from: int, size: int, now: int): (r: Result<seq<ItemView>>)
    ensures from < 0 || size < 1 ==> r == Err(Validation)
    ensures from >= 0 && size >= 1 ==> (r.Err? <==> FindUser(db, userId).None?)
    ensures from >= 0 && size >= 1 && r.Err? ==> r == Err(NotFound)
    ensures r.Ok? ==>
              && ShowsPage(db, r.value, ItemRepository.FindItemsForUser(db.items.rows, FindUser(db, userId).value),
                           from, size, userId, now)
              && |r.value| <= size
              && (forall i, j | 0 <= i < j < |r.value| :: r.value[i].id <= r.value[j].id)
              && forall k | 0 <= k < |r.value| :: OwnedView(db, r.value[k], userId, now)
  {
    match BookingService.CheckFromAndSize(from, size)
    case Fail(kind) => Err(kind)
    case Pass =>
      match FindUser(db, userId)
      case None => Err(NotFound)
      case Some(user) =>
        Ok(OwnerViews(db, user, from, size, now))
  }

  /** Paging the owner's items loses none: the item at position `n` of the
      unpaged owner query is shown when `from` is `n`. */
  lemma EveryOwnedItemOnItsPage(db: Db, userId: int, n: int, size: int, now: int)
    requires FindUser(db, userId).Some? && size >= 1
    requires 0 <= n < |ItemRepository.FindItemsForUser(db.items.rows, FindUser(db, userId).value)|
    ensures GetAllItems(db, userId, n, size, now).Ok?
    ensures ToView(db, ItemRepository.FindItemsForUser(db.items.rows, FindUser(db, userId).value)[n], userId, now)
            in GetAllItems(db, userId, n, size, now).value
  {
    var all := ItemRepository.FindItemsForUser(db.items.rows, FindUser(db, userId).value);
    ShownOnItsPage(db, GetAllItems(db, userId, n, size, now).value, all, n, size, userId, now);
  }

  /** A created item is in its owner's unpaged item list. */
  lemma CreatedItemListedForOwner(db: Db, body: ItemBody, userId: Option<int>, now: int)
    requires AddNewItem(db, body, userId, now).Ok?
    ensures var db' := AddNewItem(db, body, userId, now).value.0;
            db'.items.rows[|db'.items.rows| - 1]
              in ItemRepository.FindItemsForUser(db'.items.rows, FindUser(db, userId.value).value)
  {
    var db' := AddNewItem(db, body, userId, now).value.0;
    assert db'.items.rows[|db'.items.rows| - 1].ownerId == userId.value;
  }

  /** One page of the text search, matching the same text in the name and
      in the description. */
  function SearchPage(items: seq<Item>, text: string, from: int, size: int): (r: seq<Item>)
    requires from >= 0 && size >= 1
    ensures IsPageOf(r, ItemRepository.SearchAvailable(items, text, text), from, size)
    ensures |r| <= size
    ensures forall i | i in r :: i in items && ItemRepository.MatchesSearch(i, text, text)
  {
    var all := ItemRepository.SearchAvailable(items, text, text);
    var r := ItemRepository.FindAvailableItemsByNameOrDescription(items, text, text, from / size, size);
    assert r == PageAt(all, from, size);
    r
  }

  /** `getItemByNameOrDescription`: paging parameters first
      (`Validation`); the empty text gives an empty list without querying;
      otherwise the views of the page offset `from` falls in of the
      available items whose name or description contains the text,
      ignoring case. */
  function Search(db: Db, text: string, userId: int, from: int, size: int, now: int): (r: Result<seq<ItemView>>)
    ensures r.Err? <==> from < 0 || size < 1
    ensures r.Err? ==> r.kind == Validation
    ensures r.Ok? && text == "" ==> r.value == []
    ensures r.Ok? && text != "" ==>
              ShowsPage(db, r.value, ItemRepository.SearchAvailable(db.items.rows, text, text), from, size, userId, now)
    ensures r.Ok? ==>
              && |r.value| <= size
              && forall k | 0 <= k < |r.value| :: MatchingView(db, r.value[k], text, userId, now)
  {
    match BookingService.CheckFromAndSize(from, size)
    case Fail(kind) => Err(kind)
    case Pass =>
      if text == "" then Ok([])
      else
        var page := SearchPage(db.items.rows, text, from, size);
        var r := Views(db, page, userId, now);
        ViewsShowPage(db, page, ItemRepository.SearchAvailable(db.items.rows, text, text), from, size, userId, now);
        forall k | 0 <= k < |r|
          ensures MatchingView(db, r[k], text, userId, now)
        {
          assert page[k] in page;
        }
        Ok(r)
  }

  /** `v` is the caller's view of a stored, available item whose name or
      description contains `text`, ignoring case. */
  predicate MatchingView(db: Db, v: ItemView, text: string, userId: int, now: int)
  {
    exists it | it in db.items.rows && ItemRepository.MatchesSearch(it, text, text) :: v == ToView(db, it, userId, now)
  }

  /** Paging the search loses nothing: the match at position `n` of the
      unpaged search is shown when `from` is `n`. */
  lemma EveryMatchOnItsPage(db: Db, text: string, userId: int, n: int, size: int, now: int)
    requires text != "" && size >= 1
    requires 0 <= n < |ItemRepository.SearchAvailable(db.items.rows, text, text)|
    ensures Search(db, text, userId, n, size, now).Ok?
    ensures ToView(db, ItemRepository.SearchAvailable(db.items.rows, text, text)[n], userId, now)
            in Search(db, text, userId, n, size, now).value
  {
    var all := ItemRepository.SearchAvailable(db.items.rows, text, text);
    ShownOnItsPage(db, Search(db, text, userId, n, size, now).value, all, n, size, userId, now);
  }

  /** A created item that is available and whose name contains the text,
      ignoring case, is found by the unpaged search. */
  lemma CreatedItemFound(db: Db, body: ItemBody, userId: Option<int>, now: int, text: string)
    requires AddNewItem(db, body, userId, now).Ok?
    requires body.available == Some(true) && Text.ContainsIgnoringCase(body.name.value, text)
    ensures var db' := AddNewItem(db, body, userId, now).value.0;
            db'.items.rows[|db'.items.rows| - 1] in ItemRepository.SearchAvailable(db'.items.rows, text, text)
  {
    var db' := AddNewItem(db, body, userId, now).value.0;
    var it := db'.items.rows[|db'.items.rows| - 1];
    assert it.name == body.name.value && it.available;
    assert ItemRepository.MatchesSearch(it, text, text);
  }

  /** The comment eligibility rule: the user has an approved booking of
      the item that ended strictly before `now`. */
  predicate MayComment(db: Db, itemId: int, userId: int, now: int)
  {
    exists b | b in db.bookings.rows ::
      b.item.id == itemId && b.booker.id == userId && b.status == BookingStatus.Approved && b.end < now
  }

  /** `addNewComment`. A blank text is refused first (`Validation`); then
      the item must exist (`NotFound`), then the user (`NotFound`); then the
      user must be eligible (`Validation`). The saved comment gets the next
      comment id, the text, the item, the user as author and `now` as its
      creation time. */
  function AddNewComment(db: Db, text: Option<string>, userId: int, itemId: int, now: int): (r: Result<(Db, Comment)>)
    ensures IsBlank(text) ==> r == Err(Validation)
    ensures !IsBlank(text) && FindItem(db, itemId).None? ==> r == Err(NotFound)
    ensures !IsBlank(text) && FindItem(db, itemId).Some? && FindUser(db, userId).None? ==> r == Err(NotFound)
    ensures (&& !IsBlank(text) && FindItem(db, itemId).Some? && FindUser(db, userId).Some?
             && !MayComment(db, itemId, userId, now)) ==> r == Err(Validation)
    ensures r.Ok? <==> && !IsBlank(text) && FindItem(db, itemId).Some? && FindUser(db, userId).Some?
                       && MayComment(db, itemId, userId, now)
    ensures r.Ok? ==>
              var (db', c) := r.value;
              && c == Comment(db.comments.nextId, text.value, FindItem(db, itemId).value, FindUser(db, userId).value, now)
              && db' == db.(comments := Insert(db.comments, c))
  {
    if CommentValidation.Validate(text).Fail? then Err(Validation)
    else
      match FindItem(db, itemId)
      case None => Err(NotFound)
      case Some(item) =>
        match FindUser(db, userId)
        case None => Err(NotFound)
        case Some(user) =>
          if FindPastBookingsForUserAndItem(db.bookings.rows, item, user, BookingStatus.Approved, now) == [] then
            Err(Validation)
          else
            var c := Comment(db.comments.nextId, text.value, item, user, now);
            Ok((db.(comments := Insert(db.comments, c)), c))
  }

  /** A saved comment keeps the store valid and then shows on the item's
      page, whoever views it. */
  lemma CommentShowsOnItem(db: Db, text: Option<string>, userId: int, itemId: int, now: int, viewer: int, later: int)
    requires DbValid(db)
    requires AddNewComment(db, text, userId, itemId, now).Ok?
    ensures var (db', c) := AddNewComment(db, text, userId, itemId, now).value;
            && DbValid(db')
            && GetItemById(db', itemId, viewer, later).Ok?
            && c in GetItemById(db', itemId, viewer, later).value.comments
  {
    var (db', c) := AddNewComment(db, text, userId, itemId, now).value;
    InsertKeepsValid(db.comments, CommentKey, c);
    var all := CommentsOf(db', FindItem(db', itemId).value);
    assert c in db'.comments.rows;
    assert c in all;
    var k :| 0 <= k < |all| && all[k] == c;
    assert db'.items == db.items && db'.users == db.users;
    CurrentCommentCopiesReadUnchanged(db', c);
    assert GetItemById(db', itemId, viewer, later).value.comments[k] == c;
  }
}
