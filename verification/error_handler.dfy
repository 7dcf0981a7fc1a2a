/** The exception handler of the `server/` revision: which HTTP status and
    which `{"error": ...}` body each exception kind of the application is
    answered with. */
module ErrorHandler {
  import opened Common
  import BookingService
  import Entities

  /** An HTTP answer: the status code and the JSON object of the body. */
  datatype Response = Response(status: int, body: map<string, string>)

  /** The fixed text every `IllegalArgumentException` is answered with. */
  const UnknownState: string := "Unknown state: UNSUPPORTED_STATUS"

  /** The handler for `kind`, given the exception's message. Validation is
      400, not found 404, internal errors 500, an existing resource 409,
      a forbidden change 403, an unknown state 400 with the fixed text
      instead of the message, and an already-made decision 400. A store
      constraint failure has no handler here. */
  function Handle(kind: ErrorKind, message: string): (r: Option<Response>)
    ensures r.None? <==> kind == StoreConstraint
    ensures r.Some? ==> r.value.body.Keys == {"error"}
    ensures r.Some? ==> r.value.body["error"] == if kind == IllegalArgument then UnknownState else message
    ensures kind == Validation ==> r.value.status == 400
    ensures kind == NotFound ==> r.value.status == 404
    ensures kind == InternalServer ==> r.value.status == 500
    ensures kind == IsAlreadyExists ==> r.value.status == 409
    ensures kind == Forbidden ==> r.value.status == 403
    ensures kind == IllegalArgument ==> r.value.status == 400
    ensures kind == IsAlreadyDone ==> r.value.status == 400
  {
    match kind
    case Validation => Some(Response(400, map["error" := message]))
    case NotFound => Some(Response(404, map["error" := message]))
    case InternalServer => Some(Response(500, map["error" := message]))
    case IsAlreadyExists => Some(Response(409, map["error" := message]))
    case Forbidden => Some(Response(403, map["error" := message]))
    case IllegalArgument => Some(Response(400, map["error" := UnknownState]))
    case IsAlreadyDone => Some(Response(400, map["error" := message]))
    case StoreConstraint => None
  }

  /** Every handled kind but `InternalServer` is a client error, and two
      different messages give different bodies exactly when the kind is
      not `IllegalArgument`. */
  lemma ClientErrorsAndMessages(kind: ErrorKind, m1: string, m2: string)
    requires kind != StoreConstraint
    ensures kind != InternalServer <==> 400 <= Handle(kind, m1).value.status < 500
    ensures m1 != m2 ==> (Handle(kind, m1) == Handle(kind, m2) <==> kind == IllegalArgument)
  {
    if m1 != m2 && kind != IllegalArgument {
      assert Handle(kind, m1).value.body["error"] != Handle(kind, m2).value.body["error"];
    }
  }

  /** A failed approval is answered 404 or 400: the caller is never told
      that the booking exists but belongs to someone else (no 403). */
  lemma ApprovalFailuresAreNotFoundOrBadRequest(db: Entities.Db, userId: int, bookingId: int, approved: bool, message: string)
    requires BookingService.ApproveOrRejectBooking(db, userId, bookingId, approved).Err?
    ensures var kind := BookingService.ApproveOrRejectBooking(db, userId, bookingId, approved).kind;
            Handle(kind, message).Some? && Handle(kind, message).value.status in {400, 404}
  {
  }

  /** A failed booking listing is answered 400 (bad paging or an unknown
      state, the latter with the fixed text) or 404 (unknown user). */
  lemma ListingFailuresAreClientErrors(db: Entities.Db, userId: int, state: string, from: int, size: int, now: int, message: string)
    requires BookingService.GetBookingCurrentUser(db, userId, state, from, size, now).Err?
    ensures var kind := BookingService.GetBookingCurrentUser(db, userId, state, from, size, now).kind;
            && Handle(kind, message).Some?
            && Handle(kind, message).value.status in {400, 404}
            && (BookingService.GetBookingStateValue(state).Err? && from >= 0 && size >= 1
                && Entities.FindUser(db, userId).Some?
                ==> Handle(kind, message).value.body["error"] == UnknownState)
  {
  }
}
