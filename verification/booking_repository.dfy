/** The booking queries of the JPA repository: a scope (the booker, or a
    list of items), a `where` condition relative to an instant or a status,
    and an ordering by start. Paging is applied by the caller with
    `Tables.Page`. */
module BookingRepository {
  import opened Common
  import opened Tables
  import opened Entities

  /** The extra `where` condition of each named query. The instant is the
      one the caller passes as the `start`/`end` query parameter. */
  datatype Condition =
    | AnyTime
    | CurrentAt(now: int)
    | PastAt(now: int)
    | FutureAt(now: int)
    | StatusIs(status: BookingStatus)

  predicate Holds(c: Condition, b: Booking)
  {
    match c
    case AnyTime => true
    case CurrentAt(now) => b.start < now && b.end > now
    case PastAt(now) => b.end < now
    case FutureAt(now) => b.start > now
    case StatusIs(s) => b.status == s
  }

  /** `order by b.start desc` holds along `s`. */
  predicate SortedByStartDesc(s: seq<Booking>)
  {
    forall i, j | 0 <= i < j < |s| :: s[i].start >= s[j].start
  }

  /** `b.item in :items`: entities compare by primary key. */
  predicate AmongItems(b: Booking, items: seq<Item>)
  {
    exists i | 0 <= i < |items| :: items[i].id == b.item.id
  }

  function OrderByStartDesc(s: seq<Booking>): (r: seq<Booking>)
    ensures SortedByStartDesc(r)
    ensures multiset(r) == multiset(s)
  {
    var r := SortBy(s, StartDescKey);
    assert forall i, j | 0 <= i < j < |r| :: StartDescKey(r[i]) <= StartDescKey(r[j]);
    r
  }

  /** The five `find...BookingsForUser` queries: the bookings whose booker
      is `user` and that satisfy `c`, each with its stored multiplicity,
      latest start first. */
  function ForBooker(bookings: seq<Booking>, user: User, c: Condition): (r: seq<Booking>)
    ensures forall b :: b in r <==> b in bookings && b.booker.id == user.id && Holds(c, b)
    ensures forall b :: multiset(r)[b] == if b.booker.id == user.id && Holds(c, b) then multiset(bookings)[b] else 0
    ensures SortedByStartDesc(r)
  {
    OrderByStartDesc(Filter(bookings, (b: Booking) => b.booker.id == user.id && Holds(c, b)))
  }

  /** The five `find...BookingsForItems` queries: the bookings of one of
      `items` that satisfy `c`, latest start first, except the status query
      (`findWaitingOrRejectedBookingsForItems`), which has no `order by` and
      is returned in storage order. */
  function ForItems(bookings: seq<Booking>, items: seq<Item>, c: Condition): (r: seq<Booking>)
    ensures forall b :: b in r <==> b in bookings && AmongItems(b, items) && Holds(c, b)
    ensures forall b :: multiset(r)[b] == if AmongItems(b, items) && Holds(c, b) then multiset(bookings)[b] else 0
    ensures !c.StatusIs? ==> SortedByStartDesc(r)
  {
    var selected := Filter(bookings, (b: Booking) => AmongItems(b, items) && Holds(c, b));
    if c.StatusIs? then selected else OrderByStartDesc(selected)
  }

  /** The row `findLastBooking` looks for: on the item, with the status,
      starting strictly before the instant. */
  predicate LastCandidate(b: Booking, itemId: int, now: int, status: BookingStatus)
  {
    b.item.id == itemId && b.start < now && b.status == status
  }

  /** The row `findNextBooking` looks for: on the item, with the status,
      starting strictly after the instant. */
  predicate NextCandidate(b: Booking, itemId: int, now: int, status: BookingStatus)
  {
    b.item.id == itemId && b.start > now && b.status == status
  }

  /** `findLastBooking`: `order by start desc limit 1` over the candidates.
      The result is a candidate with the greatest start; there is none
      exactly when no booking is a candidate. */
  function FindLastBooking(bookings: seq<Booking>, itemId: int, now: int, status: BookingStatus): (r: Option<Booking>)
    ensures r.Some? ==> r.value in bookings && LastCandidate(r.value, itemId, now, status)
    ensures r.Some? ==> forall b | b in bookings && LastCandidate(b, itemId, now, status) :: b.start <= r.value.start
    ensures r.None? <==> forall b | b in bookings :: !LastCandidate(b, itemId, now, status)
  {
    var sorted := SortBy(Filter(bookings, (b: Booking) => LastCandidate(b, itemId, now, status)), StartDescKey);
    if |sorted| == 0 then None
    else
      FirstOfSortedIsLeast(sorted, StartDescKey);
      Some(sorted[0])
  }

  /** `findNextBooking`: `order by start asc limit 1` over the candidates.
      The result is a candidate with the least start; there is none exactly
      when no booking is a candidate. */
  function FindNextBooking(bookings: seq<Booking>, itemId: int, now: int, status: BookingStatus): (r: Option<Booking>)
    ensures r.Some? ==> r.value in bookings && NextCandidate(r.value, itemId, now, status)
    ensures r.Some? ==> forall b | b in bookings && NextCandidate(b, itemId, now, status) :: r.value.start <= b.start
    ensures r.None? <==> forall b | b in bookings :: !NextCandidate(b, itemId, now, status)
  {
    var sorted := SortBy(Filter(bookings, (b: Booking) => NextCandidate(b, itemId, now, status)), StartAscKey);
    if |sorted| == 0 then None
    else
      FirstOfSortedIsLeast(sorted, StartAscKey);
      Some(sorted[0])
  }

  /** `findPastBookingsForUserAndItem`: the bookings of exactly this item and
      booker with exactly this status that ended strictly before `end`. */
  function FindPastBookingsForUserAndItem(bookings: seq<Booking>, item: Item, user: User, status: BookingStatus, end: int): (r: seq<Booking>)
    ensures forall b :: b in r <==> (&& b in bookings && b.item.id == item.id && b.booker.id == user.id
                                     && b.status == status && b.end < end)
  {
    Filter(bookings, (b: Booking) => b.item.id == item.id && b.booker.id == user.id && b.status == status && b.end < end)
  }

  /** For a booking whose start is before its end, at most one of the
      current, past and future conditions holds at any instant. */
  lemma TimeConditionsExclusive(b: Booking, now: int)
    requires b.start < b.end
    ensures !(Holds(CurrentAt(now), b) && Holds(PastAt(now), b))
    ensures !(Holds(CurrentAt(now), b) && Holds(FutureAt(now), b))
    ensures !(Holds(PastAt(now), b) && Holds(FutureAt(now), b))
  {
  }

  /** The three conditions do not cover every instant: a booking that
      starts exactly now, or ends exactly now, satisfies none of them. */
  lemma TimeConditionsNotExhaustive(b: Booking, now: int)
    requires b.start < b.end
    requires b.start == now || b.end == now
    ensures !Holds(CurrentAt(now), b) && !Holds(PastAt(now), b) && !Holds(FutureAt(now), b)
  {
  }

  /** Whenever both exist, the last booking starts before the instant and
      the next one after it. */
  lemma LastBeforeNext(bookings: seq<Booking>, itemId: int, now: int, status: BookingStatus)
    requires FindLastBooking(bookings, itemId, now, status).Some?
    requires FindNextBooking(bookings, itemId, now, status).Some?
    ensures FindLastBooking(bookings, itemId, now, status).value.start < now
            < FindNextBooking(bookings, itemId, now, status).value.start
  {
  }

  /** Each conditional query selects a sub-multiset of the unconditional
      query of the same scope. */
  lemma ConditionalWithinAll(bookings: seq<Booking>, user: User, items: seq<Item>, c: Condition)
    ensures multiset(ForBooker(bookings, user, c)) <= multiset(ForBooker(bookings, user, AnyTime))
    ensures multiset(ForItems(bookings, items, c)) <= multiset(ForItems(bookings, items, AnyTime))
  {
    BookerConditionalWithinAll(bookings, user, c);
    ItemsConditionalWithinAll(bookings, items, c);
  }

  /** `ConditionalWithinAll` for the booker scope. */
  lemma BookerConditionalWithinAll(bookings: seq<Booking>, user: User, c: Condition)
    ensures multiset(ForBooker(bookings, user, c)) <= multiset(ForBooker(bookings, user, AnyTime))
  {
    var some, all := ForBooker(bookings, user, c), ForBooker(bookings, user, AnyTime);
    assert forall b :: multiset(some)[b] <= multiset(all)[b];
  }

  /** `ConditionalWithinAll` for the items scope. */
  lemma ItemsConditionalWithinAll(bookings: seq<Booking>, items: seq<Item>, c: Condition)
    ensures multiset(ForItems(bookings, items, c)) <= multiset(ForItems(bookings, items, AnyTime))
  {
    var some, all := ForItems(bookings, items, c), ForItems(bookings, items, AnyTime);
    assert forall b :: multiset(some)[b] <= multiset(all)[b];
  }
}
