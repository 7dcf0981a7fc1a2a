/** The booking validator of the `src/` revision: availability, then the
    dates (present, ordered, not in the past), then the self-booking rule.
    The first rule that fails decides the exception. */
module BookingValidation {
  import opened Common
  import opened Entities

  /** The body of a booking request; either date may be missing (null). */
  datatype BookingRequest = BookingRequest(itemId: int, start: Option<int>, end: Option<int>)

  /** The validator object. Its `currentDate` is read from the clock once,
      when the object is constructed, and every later request is compared
      with that same instant. */
  datatype Validator = Validator(currentDate: int)

  /** The date rule of this revision, stated on its own: both dates given,
      the start strictly before the end, and the start not before the
      validator's `currentDate`. */
  predicate DatesAcceptable(v: Validator, req: BookingRequest)
  {
    && req.start.Some? && req.end.Some?
    && req.start.value < req.end.value
    && req.start.value >= v.currentDate
  }

  function CheckItemAvailable(item: Item): Outcome
  {
    if !item.available then Fail(Validation) else Pass
  }

  function CheckStartOrEndDate(v: Validator, req: BookingRequest): Outcome
  {
    if req.start.None? || req.end.None? then Fail(Validation)
    else if req.start.value > req.end.value || req.start.value == req.end.value then Fail(Validation)
    else if req.start.value < v.currentDate then Fail(Validation)
    else Pass
  }

  /** The owner id is compared with the booker id by value. */
  function CheckBookerIsNotOwner(userId: int, item: Item): Outcome
  {
    if item.ownerId == userId then Fail(NotFound) else Pass
  }

  /** `bookingValidation`: passes exactly when the item is available, the
      dates are acceptable and the booker is not the owner. A failure is a
      `Validation` error unless only the self-booking rule is broken, which
      is reported as `NotFound`. */
  function Validate(v: Validator, req: BookingRequest, item: Item, userId: int): (r: Outcome)
    ensures r == Pass <==> item.available && DatesAcceptable(v, req) && item.ownerId != userId
    ensures r.Fail? ==> r.kind == (if item.available && DatesAcceptable(v, req) then NotFound else Validation)
  {
    var available := CheckItemAvailable(item);
    if available.Fail? then available
    else
      var dates := CheckStartOrEndDate(v, req);
      if dates.Fail? then dates
      else CheckBookerIsNotOwner(userId, item)
  }

  /** An owner booking an unavailable item in the past is told about the
      availability: the rules are checked in order and the first one wins. */
  lemma AvailabilityCheckedFirst(v: Validator, req: BookingRequest, item: Item)
    requires !item.available
    ensures Validate(v, req, item, item.ownerId) == Fail(Validation)
  {
  }
}

/** The booking validator of the `server/` revision: the same rules without
    the null-date and past-start checks. */
module ServerBookingValidation {
  import opened Common
  import opened Entities
  import BookingValidation

  type BookingRequest = BookingValidation.BookingRequest

  function CheckItemAvailable(item: Item): Outcome
  {
    if !item.available then Fail(Validation) else Pass
  }

  /** There is no null guard: a missing date would throw a
      NullPointerException, so callers must supply both dates. */
  function CheckStartOrEndDate(req: BookingRequest): Outcome
    requires req.start.Some? && req.end.Some?
  {
    if req.start.value > req.end.value || req.start.value == req.end.value then Fail(Validation)
    else Pass
  }

  function CheckBookerIsNotOwner(userId: int, item: Item): Outcome
  {
    if item.ownerId == userId then Fail(NotFound) else Pass
  }

  /** `bookingValidation` of this revision: passes exactly when the item is
      available, the start is strictly before the end, and the booker is not
      the owner; any start strictly before the end is accepted, however far
      in the past. */
  function Validate(req: BookingRequest, item: Item, userId: int): (r: Outcome)
    requires req.start.Some? && req.end.Some?
    ensures r == Pass <==> item.available && req.start.value < req.end.value && item.ownerId != userId
    ensures r.Fail? ==> r.kind == (if item.available && req.start.value < req.end.value then NotFound else Validation)
  {
    var available := CheckItemAvailable(item);
    if available.Fail? then available
    else
      var dates := CheckStartOrEndDate(req);
      if dates.Fail? then dates
      else CheckBookerIsNotOwner(userId, item)
  }

  /** On requests with both dates, the `src/` validator accepts exactly the
      requests this one accepts whose start is not before its `currentDate`;
      so this validator accepts a superset. */
  lemma StrictIsLenientPlusPastCheck(v: BookingValidation.Validator, req: BookingRequest, item: Item, userId: int)
    requires req.start.Some? && req.end.Some?
    ensures BookingValidation.Validate(v, req, item, userId) == Pass
            <==> Validate(req, item, userId) == Pass && req.start.value >= v.currentDate
    ensures Validate(req, item, userId).Fail? ==> BookingValidation.Validate(v, req, item, userId).Fail?
  {
  }

  /** A request that starts before the strict validator's `currentDate` is
      accepted here and rejected there with a `Validation` error. */
  lemma PastStartAcceptedOnlyHere(v: BookingValidation.Validator, item: Item, userId: int)
    requires item.available && item.ownerId != userId
    ensures var req := BookingValidation.BookingRequest(item.id, Some(v.currentDate - 2), Some(v.currentDate - 1));
            && Validate(req, item, userId) == Pass
            && BookingValidation.Validate(v, req, item, userId) == Fail(Validation)
  {
  }
}
