/** The booking service of the `src/` revision: creation, the approval
    state machine, reading one booking, and the two paged listings (as the
    booker, and as the owner of the booked items). Every operation takes the
    store and returns the new store together with its answer. */
module BookingService {
  import opened Common
  import opened Tables
  import opened Entities
  import opened BookingValidation
  import opened BookingRepository
  import ItemRepository
  import opened Text

  /** The `state` filter of the listings. */
  datatype BookingState = All | Current | Past | Future | Waiting | Rejected

  /** The enum constant's name, which is what the request must spell. */
  function StateName(st: BookingState): string
  {
    match st
    case All => "ALL"
    case Current => "CURRENT"
    case Past => "PAST"
    case Future => "FUTURE"
    case Waiting => "WAITING"
    case Rejected => "REJECTED"
  }

  /** `BookingState.values()`, in declaration order. */
  const AllStates: seq<BookingState> :=
    [All, Current, Past, Future, BookingState.Waiting, BookingState.Rejected]

  /** The loop of `getBookingStateValue`: the first state whose name equals
      `state`, comparing with `String.equals`. */
  function FirstNamed(states: seq<BookingState>, state: string): (r: Option<BookingState>)
    ensures r.Some? ==> r.value in states && StateName(r.value) == state
    ensures r.None? ==> forall st | st in states :: StateName(st) != state
  {
    if |states| == 0 then None
    else if state == StateName(states[0]) then Some(states[0])
    else FirstNamed(states[1..], state)
  }

  /** `getBookingStateValue`: an exact, case-sensitive match against the six
      names; anything else is an `IllegalArgument` error. */
  function GetBookingStateValue(state: string): (r: Result<BookingState>)
    ensures r.Ok? ==> StateName(r.value) == state
    ensures r.Err? ==> r.kind == IllegalArgument && forall st: BookingState :: StateName(st) != state
  {
    match FirstNamed(AllStates, state)
    case Some(st) => Ok(st)
    case None =>
      EveryStateListed();
      Err(IllegalArgument)
  }

  /** `values()` lists every state. */
  lemma EveryStateListed()
    ensures forall st: BookingState :: st in AllStates
  {
    forall st: BookingState
      ensures st in AllStates
    {
      match st
      case All => assert AllStates[0] == st;
      case Current => assert AllStates[1] == st;
      case Past => assert AllStates[2] == st;
      case Future => assert AllStates[3] == st;
      case Waiting => assert AllStates[4] == st;
      case Rejected => assert AllStates[5] == st;
    }
  }

  /** One page of a listing: the page offset `from` falls in, so at most
      `size` rows, taken in order from the listing; still latest start first
      when the listing was. */
  function ListingPage(all: seq<Booking>, from: int, size: int): (r: seq<Booking>)
    requires from >= 0 && size >= 1
    ensures IsPageOf(r, all, from, size)
    ensures |r| <= size
    ensures forall b | b in r :: b in all
    ensures SortedByStartDesc(all) ==> SortedByStartDesc(r)
  {
    var page := from / size;
    PageIsSubset(all, page, size);
    var r := PageAt(all, from, size);
    assert SortedByStartDesc(all) ==> SortedByStartDesc(r) by {
      if SortedByStartDesc(all) {
        assert SortedBy(all, StartDescKey);
        PageKeepsSorted(all, page, size, StartDescKey);
        assert forall i, j | 0 <= i < j < |r| :: StartDescKey(r[i]) <= StartDescKey(r[j]);
      }
    }
    r
  }

  /** Parsing a state's own name gives that state back. */
  lemma ParseStateName(st: BookingState)
    ensures GetBookingStateValue(StateName(st)) == Ok(st)
  {
  }

  /** Parsing is case-sensitive: the lower-case spelling of every state's
      name is refused. */
  lemma ParseIsCaseSensitive(st: BookingState)
    ensures GetBookingStateValue(Lower(StateName(st))) == Err(IllegalArgument)
  {
    var low := Lower(StateName(st));
    NameStartsUpperCase(st);
    assert 'a' <= low[0] <= 'z';
    forall other: BookingState
      ensures StateName(other) != low
    {
      NameStartsUpperCase(other);
    }
  }

  /** Every state's name starts with a Latin capital. */
  lemma NameStartsUpperCase(st: BookingState)
    ensures |StateName(st)| > 0 && 'A' <= StateName(st)[0] <= 'Z'
  {
  }

  /** The `switch` of the listings: which repository condition each state
      selects. Only `All` reaches the `default` branch. */
  function ConditionFor(st: BookingState, now: int): Condition
  {
    match st
    case All => AnyTime
    case Current => CurrentAt(now)
    case Past => PastAt(now)
    case Future => FutureAt(now)
    case Waiting => StatusIs(BookingStatus.Waiting)
    case Rejected => StatusIs(BookingStatus.Rejected)
  }

  /** `checkFromAndSize`: `from` must be non-negative and `size` positive. */
  function CheckFromAndSize(from: int, size: int): (r: Outcome)
    ensures r == Pass <==> from >= 0 && size >= 1
    ensures r.Fail? ==> r.kind == Validation
  {
    if from < 0 || size < 1 then Fail(Validation) else Pass
  }

  /** `addNewBooking`. The item must exist (else `NotFound`), then the
      validator must pass (else its error), then the booker must exist (else
      `NotFound`). The new booking is inserted under the next booking id,
      with status `Waiting`, the found item and booker, and the requested
      dates; nothing else in the store changes. */
  function AddNewBooking(db: Db, v: Validator, req: BookingRequest, userId: int): (r: Result<(Db, Booking)>)
    ensures FindItem(db, req.itemId).None? ==> r == Err(NotFound)
    ensures FindItem(db, req.itemId).Some? && Validate(v, req, FindItem(db, req.itemId).value, userId).Fail?
            ==> r == Err(Validate(v, req, FindItem(db, req.itemId).value, userId).kind)
    ensures (&& FindItem(db, req.itemId).Some?
             && Validate(v, req, FindItem(db, req.itemId).value, userId).Pass?
             && FindUser(db, userId).None?) ==> r == Err(NotFound)
    ensures r.Ok? <==> && FindItem(db, req.itemId).Some?
                       && Validate(v, req, FindItem(db, req.itemId).value, userId).Pass?
                       && FindUser(db, userId).Some?
    ensures r.Ok? ==>
              var (db', b) := r.value;
              && Some(b.item) == FindItem(db, req.itemId)
              && Some(b.booker) == FindUser(db, userId)
              && b.item.id == req.itemId && b.booker.id == userId
              && b.status == BookingStatus.Waiting
              && Some(b.start) == req.start && Some(b.end) == req.end
              && b.start < b.end && b.item.ownerId != userId && b.item.available
              && b.id == db.bookings.nextId
              && db' == db.(bookings := Insert(db.bookings, b))
  {
    match FindItem(db, req.itemId)
    case None => Err(NotFound)
    case Some(item) =>
      match Validate(v, req, item, userId)
      case Fail(kind) => Err(kind)
      case Pass =>
        match FindUser(db, userId)
        case None => Err(NotFound)
        case Some(user) =>
          var b := Booking(db.bookings.nextId, item, user, req.start.value, req.end.value, BookingStatus.Waiting);
          Ok((db.(bookings := Insert(db.bookings, b)), b))
  }

  /** Creating a booking keeps the store valid; in particular every stored
      booking still starts strictly before it ends. */
  lemma AddNewBookingKeepsStoreValid(db: Db, v: Validator, req: BookingRequest, userId: int)
    requires DbValid(db)
    requires AddNewBooking(db, v, req, userId).Ok?
    ensures DbValid(AddNewBooking(db, v, req, userId).value.0)
  {
    var (db', b) := AddNewBooking(db, v, req, userId).value;
    InsertKeepsValid(db.bookings, BookingKey, b);
  }

  /** The status an approval decision asks for. */
  function Decision(approved: bool): BookingStatus
  {
    if approved then BookingStatus.Approved else BookingStatus.Rejected
  }

  /** `approveOrRejectBooking`. A missing booking is `NotFound`; a caller
      who does not own the booked item, as stored now, is also `NotFound`
      (not `Forbidden`); asking for the status the booking already has is
      `IsAlreadyDone`. Otherwise the booking, read with its current item and
      booker, gets the decided status (so `Approved` and `Rejected` may flip
      into each other), keeps every other field, and replaces the stored
      row with the same id; that saved booking is the answer. */
  function ApproveOrRejectBooking(db: Db, userId: int, bookingId: int, approved: bool): (r: Result<(Db, Booking)>)
    ensures FindBooking(db, bookingId).None? ==> r == Err(NotFound)
    ensures FindBooking(db, bookingId).Some? && userId != Resolved(db, FindBooking(db, bookingId).value).item.ownerId
            ==> r == Err(NotFound)
    ensures FindBooking(db, bookingId).Some? && userId == Resolved(db, FindBooking(db, bookingId).value).item.ownerId
            ==> && (r.Err? <==> FindBooking(db, bookingId).value.status == Decision(approved))
                && (r.Err? ==> r == Err(IsAlreadyDone))
    ensures r.Ok? ==>
              var (db', b) := r.value;
              var old_ := FindBooking(db, bookingId).value;
              && FindBooking(db, bookingId).Some?
              && userId == Resolved(db, old_).item.ownerId
              && old_.status != Decision(approved)
              && b == Resolved(db, old_).(status := Decision(approved))
              && db' == db.(bookings := db.bookings.(rows := Replace(db.bookings.rows, BookingKey, b)))
  {
    match FindBooking(db, bookingId)
    case None => Err(NotFound)
    case Some(stored) =>
      var booking := Resolved(db, stored);
      if userId != booking.item.ownerId then Err(NotFound)
      else if approved && booking.status == BookingStatus.Approved then Err(IsAlreadyDone)
      else if !approved && booking.status == BookingStatus.Rejected then Err(IsAlreadyDone)
      else
        var b := booking.(status := Decision(approved));
        Ok((db.(bookings := db.bookings.(rows := Replace(db.bookings.rows, BookingKey, b))), b))
  }

  /** A decision keeps the store valid and changes no other booking. */
  lemma ApproveOrRejectKeepsStoreValid(db: Db, userId: int, bookingId: int, approved: bool)
    requires DbValid(db)
    requires ApproveOrRejectBooking(db, userId, bookingId, approved).Ok?
    ensures var (db', b) := ApproveOrRejectBooking(db, userId, bookingId, approved).value;
            && DbValid(db')
            && |db'.bookings.rows| == |db.bookings.rows|
            && forall i | 0 <= i < |db.bookings.rows| && db.bookings.rows[i].id != bookingId ::
                 db'.bookings.rows[i] == db.bookings.rows[i]
  {
    var (db', b) := ApproveOrRejectBooking(db, userId, bookingId, approved).value;
    var old_ := FindBooking(db, bookingId).value;
    ReplaceKeepsValid(db.bookings, BookingKey, b);
    forall x | x in db'.bookings.rows
      ensures x.start < x.end
    {
      var i :| 0 <= i < |db'.bookings.rows| && db'.bookings.rows[i] == x;
      assert db.bookings.rows[i] in db.bookings.rows;
    }
  }

  /** The same decision twice: the second call fails `IsAlreadyDone`. */
  lemma SecondIdenticalDecisionFails(db: Db, userId: int, bookingId: int, approved: bool)
    requires DbValid(db)
    requires ApproveOrRejectBooking(db, userId, bookingId, approved).Ok?
    ensures var db' := ApproveOrRejectBooking(db, userId, bookingId, approved).value.0;
            ApproveOrRejectBooking(db', userId, bookingId, approved) == Err(IsAlreadyDone)
  {
    var (db', b) := ApproveOrRejectBooking(db, userId, bookingId, approved).value;
    var old_ := FindBooking(db, bookingId).value;
    ReplaceKeepsValid(db.bookings, BookingKey, b);
    var k :| 0 <= k < |db.bookings.rows| && db.bookings.rows[k] == old_;
    assert db'.bookings.rows[k] == b;
    FindUnique(db'.bookings.rows, BookingKey, b);
    assert FindBooking(db', bookingId) == Some(b);
    assert db'.items == db.items;
    assert Resolved(db', b).item == b.item;
    assert b.status == Decision(approved) && userId == b.item.ownerId;
  }

  /** `getBookingById`: succeeds exactly when the booking exists and the
      caller is its booker or the owner of its item, and then returns the
      booking read with its current item and booker; every failure is
      `NotFound`. */
  function GetBookingById(db: Db, userId: int, bookingId: int): (r: Result<Booking>)
    ensures r.Ok? <==> && FindBooking(db, bookingId).Some?
                       && (userId == FindBooking(db, bookingId).value.booker.id
                           || userId == Resolved(db, FindBooking(db, bookingId).value).item.ownerId)
    ensures r.Ok? ==> r.value == Resolved(db, FindBooking(db, bookingId).value) && r.value.id == bookingId
    ensures r.Err? ==> r.kind == NotFound
  {
    match FindBooking(db, bookingId)
    case None => Err(NotFound)
    case Some(stored) =>
      var booking := Resolved(db, stored);
      if userId != booking.booker.id && userId != booking.item.ownerId then Err(NotFound)
      else Ok(booking)
  }

  /** A created booking can be read back, exactly as created, by its booker
      and by the owner of the booked item, and by nobody else. */
  lemma CreatedBookingReadable(db: Db, v: Validator, req: BookingRequest, userId: int, reader: int)
    requires DbValid(db)
    requires AddNewBooking(db, v, req, userId).Ok?
    ensures var (db', b) := AddNewBooking(db, v, req, userId).value;
            GetBookingById(db', reader, b.id)
              == if reader == userId || reader == b.item.ownerId then Ok(b) else Err(NotFound)
  {
    var (db', b) := AddNewBooking(db, v, req, userId).value;
    FindAfterInsert(db.bookings, BookingKey, b, b.id);
    assert FindBooking(db', b.id) == Some(b);
    assert db'.items == db.items && db'.users == db.users;
    CurrentCopiesReadUnchanged(db', b);
  }

  /** `getBookingCurrentUser`: the bookings the caller made. Paging
      parameters are checked first (`Validation`), then the caller must
      exist (`NotFound`), then the state must parse (`IllegalArgument`); when
      all three pass the call succeeds. The answer is the page offset `from`
      falls in of the caller's bookings in that state at `now`, latest start
      first. */
  function GetBookingCurrentUser(db: Db, userId: int, state: string, from: int, size: int, now: int): (r: Result<seq<Booking>>)
    ensures from < 0 || size < 1 ==> r == Err(Validation)
    ensures from >= 0 && size >= 1 && FindUser(db, userId).None? ==> r == Err(NotFound)
    ensures from >= 0 && size >= 1 && FindUser(db, userId).Some? && GetBookingStateValue(state).Err?
            ==> r == Err(IllegalArgument)
    ensures r.Ok? <==> from >= 0 && size >= 1 && FindUser(db, userId).Some? && GetBookingStateValue(state).Ok?
    ensures r.Ok? ==>
              var c := ConditionFor(GetBookingStateValue(state).value, now);
              && ShowsBookings(db, r.value, ForBooker(db.bookings.rows, FindUser(db, userId).value, c), from, size)
              && |r.value| <= size
              && SortedByStartDesc(r.value)
              && (forall b | b in r.value :: ReadOfStored(db, b) && b.booker.id == userId && Holds(c, b))
  {
    match CheckFromAndSize(from, size)
    case Fail(kind) => Err(kind)
    case Pass =>
      match FindUser(db, userId)
      case None => Err(NotFound)
      case Some(user) =>
        match GetBookingStateValue(state)
        case Err(kind) => Err(kind)
        case Ok(st) =>
          Ok(BookerListing(db, user, st, now, from, size))
  }

  /** The booker listing in state `st`, once the checks passed: the page of
      the booker query that offset `from` falls in, each booking read with
      its current item and booker. */
  function BookerListing(db: Db, user: User, st: BookingState, now: int, from: int, size: int): (r: seq<Booking>)
    requires from >= 0 && size >= 1
    ensures ShowsBookings(db, r, ForBooker(db.bookings.rows, user, ConditionFor(st, now)), from, size)
    ensures |r| <= size
    ensures SortedByStartDesc(r)
    ensures forall b | b in r :: ReadOfStored(db, b) && b.booker.id == user.id && Holds(ConditionFor(st, now), b)
  {
    var c := ConditionFor(st, now);
    var all := ForBooker(db.bookings.rows, user, c);
    var page := ListingPage(all, from, size);
    ResolvedShowPage(db, page, all, from, size);
    BookerPageRead(db, user, c, page);
    ResolveAll(db, page)
  }

  /** Read with current references, bookings of the booker query still come
      from the store, were made by the user and meet the condition. */
  lemma BookerPageRead(db: Db, user: User, c: Condition, page: seq<Booking>)
    requires forall b | b in page :: b in ForBooker(db.bookings.rows, user, c)
    ensures forall b | b in ResolveAll(db, page) :: ReadOfStored(db, b) && b.booker.id == user.id && Holds(c, b)
  {
    var r := ResolveAll(db, page);
    forall b | b in r
      ensures ReadOfStored(db, b) && b.booker.id == user.id && Holds(c, b)
    {
      var k :| 0 <= k < |r| && r[k] == b;
      assert page[k] in ForBooker(db.bookings.rows, user, c);
    }
  }

  /** Each booking of `bs`, in order, read with its current item and
      booker; the order by start survives, since reading keeps the dates. */
  function ResolveAll(db: Db, bs: seq<Booking>): (r: seq<Booking>)
    ensures |r| == |bs|
    ensures forall k | 0 <= k < |bs| :: r[k] == Resolved(db, bs[k])
    ensures SortedByStartDesc(bs) ==> SortedByStartDesc(r)
  {
    seq(|bs|, k requires 0 <= k < |bs| => Resolved(db, bs[k]))
  }

  /** `b` is what a read shows of some stored booking. */
  ghost predicate ReadOfStored(db: Db, b: Booking)
  {
    exists s | s in db.bookings.rows :: Resolved(db, s) == b
  }

  /** `r` is the page of `all` that offset `from` falls in, each booking
      read with its current item and booker. */
  ghost predicate ShowsBookings(db: Db, r: seq<Booking>, all: seq<Booking>, from: int, size: int)
    requires from >= 0 && size >= 1
  {
    var lo := PageStart(from, size);
    && |r| == (if lo >= |all| then 0 else Min(size, |all| - lo))
    && forall k | 0 <= k < |r| :: lo + k < |all| && r[k] == Resolved(db, all[lo + k])
  }

  /** Reading a page shows that page. */
  lemma ResolvedShowPage(db: Db, page: seq<Booking>, all: seq<Booking>, from: int, size: int)
    requires from >= 0 && size >= 1
    requires IsPageOf(page, all, from, size)
    ensures ShowsBookings(db, ResolveAll(db, page), all, from, size)
  {
  }

  /** The page offset `n` falls in shows the booking at position `n`. */
  lemma ResolvedOnItsPage(db: Db, r: seq<Booking>, all: seq<Booking>, n: int, size: int)
    requires 0 <= n < |all| && size >= 1
    requires ShowsBookings(db, r, all, n, size)
    ensures Resolved(db, all[n]) in r
  {
    assert r[n - PageStart(n, size)] == Resolved(db, all[n]);
  }

  /** Paging the booker listing loses nothing: the booking at position `n`
      of the caller's unpaged query is listed when `from` is `n`. */
  lemma EveryBookingOnItsBookerPage(db: Db, userId: int, state: string, n: int, size: int, now: int)
    requires FindUser(db, userId).Some? && GetBookingStateValue(state).Ok? && size >= 1
    requires 0 <= n < |ForBooker(db.bookings.rows, FindUser(db, userId).value, ConditionFor(GetBookingStateValue(state).value, now))|
    ensures GetBookingCurrentUser(db, userId, state, n, size, now).Ok?
    ensures Resolved(db, ForBooker(db.bookings.rows, FindUser(db, userId).value, ConditionFor(GetBookingStateValue(state).value, now))[n])
            in GetBookingCurrentUser(db, userId, state, n, size, now).value
  {
    var all := ForBooker(db.bookings.rows, FindUser(db, userId).value, ConditionFor(GetBookingStateValue(state).value, now));
    ResolvedOnItsPage(db, GetBookingCurrentUser(db, userId, state, n, size, now).value, all, n, size);
  }

  /** A created booking is in the booker's unpaged listing of every state
      whose condition it meets at `now`, so always under `ALL` and
      `WAITING`. */
  lemma CreatedBookingListedForBooker(db: Db, v: Validator, req: BookingRequest, userId: int, st: BookingState, now: int)
    requires AddNewBooking(db, v, req, userId).Ok?
    ensures var p := AddNewBooking(db, v, req, userId).value;
            && (st == All || st == BookingState.Waiting ==> Holds(ConditionFor(st, now), p.1))
            && (Holds(ConditionFor(st, now), p.1) ==> p.1 in ForBooker(p.0.bookings.rows, p.1.booker, ConditionFor(st, now)))
  {
    var p := AddNewBooking(db, v, req, userId).value;
    CreatedBookingStored(db, v, req, userId);
    if Holds(ConditionFor(st, now), p.1) {
      BookedListed(p.0.bookings.rows, p.1, ConditionFor(st, now));
    }
  }

  /** A stored booking is in its booker's unpaged query for every condition
      it meets. */
  lemma BookedListed(rows: seq<Booking>, b: Booking, c: Condition)
    requires b in rows && Holds(c, b)
    ensures b in ForBooker(rows, b.booker, c)
  {
  }

  /** What the listings need to know of a created booking: it is stored,
      waiting, on a stored item, and nothing else about the items changed. */
  lemma CreatedBookingStored(db: Db, v: Validator, req: BookingRequest, userId: int)
    requires AddNewBooking(db, v, req, userId).Ok?
    ensures var p := AddNewBooking(db, v, req, userId).value;
            && p.1 in p.0.bookings.rows && p.1.item in p.0.items.rows
            && p.1.status == BookingStatus.Waiting
  {
    var p := AddNewBooking(db, v, req, userId).value;
    assert p.0.bookings.rows == db.bookings.rows + [p.1];
    assert p.1.item in db.items.rows;
  }

  /** The booking is on an item that `userId` owns in the item table. */
  predicate OnItemOwnedBy(db: Db, b: Booking, userId: int)
  {
    exists i | 0 <= i < |db.items.rows| :: db.items.rows[i].id == b.item.id && db.items.rows[i].ownerId == userId
  }

  /** A booking of one of the items `findItemsForUser` returns is on an
      item the user owns. */
  lemma OwnedItemsBookingsAreOwned(db: Db, user: User, bs: seq<Booking>)
    requires forall b | b in bs :: AmongItems(b, ItemRepository.FindItemsForUser(db.items.rows, user))
    ensures forall b | b in bs :: OnItemOwnedBy(db, b, user.id)
  {
    forall b | b in bs
      ensures OnItemOwnedBy(db, b, user.id)
    {
      OwnedItemBookingIsOwned(db, user, b);
    }
  }

  /** The single-booking step of `OwnedItemsBookingsAreOwned`. */
  lemma OwnedItemBookingIsOwned(db: Db, user: User, b: Booking)
    requires AmongItems(b, ItemRepository.FindItemsForUser(db.items.rows, user))
    ensures OnItemOwnedBy(db, b, user.id)
  {
    var items := ItemRepository.FindItemsForUser(db.items.rows, user);
    var k :| 0 <= k < |items| && items[k].id == b.item.id;
    ItemRepository.FoundItemIsOwned(db.items.rows, user, k);
    var m :| 0 <= m < |db.items.rows| && db.items.rows[m] == items[k];
  }

  /** `getBookingForItemsCurrentUser`: the bookings of the items the caller
      owns, with the same checks in the same order as the booker listing,
      and the same success condition. The answer is the page offset `from`
      falls in of the owner query. Every state but `Waiting` and `Rejected`
      is ordered latest start first; those two come in storage order. */
  function GetBookingForItemsCurrentUser(db: Db, userId: int, state: string, from: int, size: int, now: int): (r: Result<seq<Booking>>)
    ensures from < 0 || size < 1 ==> r == Err(Validation)
    ensures from >= 0 && size >= 1 && FindUser(db, userId).None? ==> r == Err(NotFound)
    ensures from >= 0 && size >= 1 && FindUser(db, userId).Some? && GetBookingStateValue(state).Err?
            ==> r == Err(IllegalArgument)
    ensures r.Ok? <==> from >= 0 && size >= 1 && FindUser(db, userId).Some? && GetBookingStateValue(state).Ok?
    ensures r.Ok? ==>
              var st := GetBookingStateValue(state).value;
              && ShowsBookings(db, r.value, OwnerBookings(db, FindUser(db, userId).value, st, now), from, size)
              && |r.value| <= size
              && (!st.Waiting? && !st.Rejected? ==> SortedByStartDesc(r.value))
              && (forall b | b in r.value :: && ReadOfStored(db, b) && OnItemOwnedBy(db, b, userId)
                                             && Holds(ConditionFor(st, now), b))
  {
    match CheckFromAndSize(from, size)
    case Fail(kind) => Err(kind)
    case Pass =>
      match FindUser(db, userId)
      case None => Err(NotFound)
      case Some(user) =>
        match GetBookingStateValue(state)
        case Err(kind) => Err(kind)
        case Ok(st) => Ok(OwnerListing(db, user, st, now, from, size))
  }

  /** The owner query before paging: `findItemsForUser`, then the bookings
      of those items in state `st`. */
  function OwnerBookings(db: Db, user: User, st: BookingState, now: int): (r: seq<Booking>)
    ensures forall b :: b in r <==> && b in db.bookings.rows
                                    && AmongItems(b, ItemRepository.FindItemsForUser(db.items.rows, user))
                                    && Holds(ConditionFor(st, now), b)
  {
    ForItems(db.bookings.rows, ItemRepository.FindItemsForUser(db.items.rows, user), ConditionFor(st, now))
  }

  /** The owner listing in state `st`, once the checks passed: the page of
      the owner query that offset `from` falls in, each booking read with
      its current item and booker. */
  function OwnerListing(db: Db, user: User, st: BookingState, now: int, from: int, size: int): (r: seq<Booking>)
    requires from >= 0 && size >= 1
    ensures ShowsBookings(db, r, OwnerBookings(db, user, st, now), from, size)
    ensures |r| <= size
    ensures !st.Waiting? && !st.Rejected? ==> SortedByStartDesc(r)
    ensures forall b | b in r :: ReadOfStored(db, b) && OnItemOwnedBy(db, b, user.id) && Holds(ConditionFor(st, now), b)
  {
    var c := ConditionFor(st, now);
    var all := OwnerBookings(db, user, st, now);
    var page := ListingPage(all, from, size);
    ResolvedShowPage(db, page, all, from, size);
    OwnerPageRead(db, user, st, now, page);
    ResolveAll(db, page)
  }

  /** Read with current references, bookings of the owner query still come
      from the store, are on the user's items and meet the condition. */
  lemma OwnerPageRead(db: Db, user: User, st: BookingState, now: int, page: seq<Booking>)
    requires forall b | b in page :: b in OwnerBookings(db, user, st, now)
    ensures forall b | b in ResolveAll(db, page) ::
              ReadOfStored(db, b) && OnItemOwnedBy(db, b, user.id) && Holds(ConditionFor(st, now), b)
  {
    var r := ResolveAll(db, page);
    forall b | b in r
      ensures ReadOfStored(db, b) && OnItemOwnedBy(db, b, user.id) && Holds(ConditionFor(st, now), b)
    {
      var k :| 0 <= k < |r| && r[k] == b;
      assert page[k] in OwnerBookings(db, user, st, now);
      OwnedItemBookingIsOwned(db, user, page[k]);
    }
  }

  /** Paging the owner listing loses nothing: the booking at position `n`
      of the unpaged owner query is listed when `from` is `n`. */
  lemma EveryBookingOnItsOwnerPage(db: Db, userId: int, state: string, n: int, size: int, now: int)
    requires FindUser(db, userId).Some? && GetBookingStateValue(state).Ok? && size >= 1
    requires 0 <= n < |OwnerBookings(db, FindUser(db, userId).value, GetBookingStateValue(state).value, now)|
    ensures GetBookingForItemsCurrentUser(db, userId, state, n, size, now).Ok?
    ensures Resolved(db, OwnerBookings(db, FindUser(db, userId).value, GetBookingStateValue(state).value, now)[n])
            in GetBookingForItemsCurrentUser(db, userId, state, n, size, now).value
  {
    var all := OwnerBookings(db, FindUser(db, userId).value, GetBookingStateValue(state).value, now);
    ResolvedOnItsPage(db, GetBookingForItemsCurrentUser(db, userId, state, n, size, now).value, all, n, size);
  }

  /** A created booking is in the unpaged owner listing, of whoever owns
      the booked item, of every state whose condition it meets at `now`. */
  lemma CreatedBookingListedForOwner(db: Db, v: Validator, req: BookingRequest, userId: int, owner: User, st: BookingState, now: int)
    requires AddNewBooking(db, v, req, userId).Ok?
    requires owner.id == AddNewBooking(db, v, req, userId).value.1.item.ownerId
    ensures var p := AddNewBooking(db, v, req, userId).value;
            Holds(ConditionFor(st, now), p.1) ==> p.1 in OwnerBookings(p.0, owner, st, now)
  {
    var p := AddNewBooking(db, v, req, userId).value;
    CreatedBookingStored(db, v, req, userId);
    if Holds(ConditionFor(st, now), p.1) {
      OwnedBookingListed(p.0, owner, p.1, st, now);
    }
  }

  /** A stored booking of a stored item the user owns is in the user's
      unpaged owner query for every state whose condition it meets. */
  lemma OwnedBookingListed(db: Db, owner: User, b: Booking, st: BookingState, now: int)
    requires b in db.bookings.rows && b.item in db.items.rows && b.item.ownerId == owner.id
    requires Holds(ConditionFor(st, now), b)
    ensures b in OwnerBookings(db, owner, st, now)
  {
    var items := ItemRepository.FindItemsForUser(db.items.rows, owner);
    assert b.item in items;
    var k :| 0 <= k < |items| && items[k] == b.item;
    assert AmongItems(b, items);
  }
}
