/** The user service over the relational store: add, update (with the
    null-field merge done before validation), read and delete. The `users`
    table has a unique `email` column; a save that would break it fails in
    the store. */
module UserService {
  import opened Common
  import opened Tables
  import opened Entities
  import opened UserValidation
  import BookingService

  /** The `unique = true` constraint of the email column. */
  ghost predicate EmailsUnique(rows: seq<User>)
  {
    forall i, j | 0 <= i < |rows| && 0 <= j < |rows| && i != j :: rows[i].email != rows[j].email
  }

  /** A stored user other than `except` has this email. */
  predicate EmailUsedByOther(rows: seq<User>, email: string, except: int)
  {
    exists i | 0 <= i < |rows| :: rows[i].email == email && rows[i].id != except
  }

  /** `getUser`: the stored user, or `NotFound`. */
  function GetUserById(db: Db, userId: int): (r: Result<User>)
    ensures r.Err? <==> FindUser(db, userId).None?
    ensures r.Err? ==> r.kind == NotFound
    ensures r.Ok? ==> r.value in db.users.rows && r.value.id == userId
  {
    match FindUser(db, userId)
    case None => Err(NotFound)
    case Some(u) => Ok(u)
  }

  /** `addUser`. An invalid user is `Validation` and nothing is saved. Any
      failure of the save itself, which here can only be the unique email
      constraint, is reported as `IsAlreadyExists`. Otherwise the user is
      inserted under the next id. */
  function AddUser(db: Db, body: UserBody): (r: Result<(Db, User)>)
    ensures Validate(body).Fail? ==> r == Err(Validation)
    ensures Validate(body).Pass? ==> (r.Err? <==> EmailUsedByOther(db.users.rows, body.email.value, db.users.nextId))
    ensures Validate(body).Pass? && r.Err? ==> r == Err(IsAlreadyExists)
    ensures r.Ok? ==>
              var (db', u) := r.value;
              && Validate(body).Pass?
              && u == User(db.users.nextId, body.name.value, body.email.value)
              && db' == db.(users := Insert(db.users, u))
  {
    if Validate(body).Fail? then Err(Validation)
    else if EmailUsedByOther(db.users.rows, body.email.value, db.users.nextId) then Err(IsAlreadyExists)
    else
      var u := User(db.users.nextId, body.name.value, body.email.value);
      Ok((db.(users := Insert(db.users, u)), u))
  }

  /** Adding a user keeps the table valid and the emails unique. */
  lemma AddUserKeepsValid(db: Db, body: UserBody)
    requires DbValid(db) && EmailsUnique(db.users.rows)
    requires AddUser(db, body).Ok?
    ensures var db' := AddUser(db, body).value.0;
            DbValid(db') && EmailsUnique(db'.users.rows)
  {
    var (db', u) := AddUser(db, body).value;
    InsertKeepsValid(db.users, UserKey, u);
  }

  /** The user an update saves: null fields filled from the stored user,
      the id taken from the path. */
  function Merged(before: User, body: UserBody, userId: int): (r: UserBody)
    ensures r.name == Some(if body.name.Some? then body.name.value else before.name)
    ensures r.email == Some(if body.email.Some? then body.email.value else before.email)
  {
    UserBody(
      if body.name.None? then Some(before.name) else body.name,
      if body.email.None? then Some(before.email) else body.email)
  }

  /** `updateUser`. An unknown id is `NotFound`. Null fields are filled from
      the stored user before validation, so only a field the body actually
      sends can make it fail (`Validation`). Saving an email another user
      has breaks the unique constraint; that failure is not caught and
      surfaces as a store error. Otherwise the row of `userId` is
      replaced. */
  function UpdateUser(db: Db, body: UserBody, userId: int): (r: Result<(Db, User)>)
    ensures FindUser(db, userId).None? ==> r == Err(NotFound)
    ensures FindUser(db, userId).Some? ==>
              var m := Merged(FindUser(db, userId).value, body, userId);
              && (Validate(m).Fail? ==> r == Err(Validation))
              && (Validate(m).Pass? ==> (r.Err? <==> EmailUsedByOther(db.users.rows, m.email.value, userId)))
              && (Validate(m).Pass? && r.Err? ==> r == Err(StoreConstraint))
              && (r.Ok? ==> && r.value.1 == User(userId, m.name.value, m.email.value)
                            && r.value.0 == db.(users := db.users.(rows := Replace(db.users.rows, UserKey, r.value.1))))
  {
    match FindUser(db, userId)
    case None => Err(NotFound)
    case Some(before) =>
      var m := Merged(before, body, userId);
      if Validate(m).Fail? then Err(Validation)
      else if EmailUsedByOther(db.users.rows, m.email.value, userId) then Err(StoreConstraint)
      else
        var u := User(userId, m.name.value, m.email.value);
        Ok((db.(users := db.users.(rows := Replace(db.users.rows, UserKey, u))), u))
  }

  /** A body that sends neither field passes validation exactly when the
      stored user does, since it is the stored user that gets validated. */
  lemma EmptyUpdateValidatesStoredUser(before: User, userId: int)
    ensures Validate(Merged(before, UserBody(None, None), userId))
            == Validate(UserBody(Some(before.name), Some(before.email)))
  {
  }

  /** Updating a user keeps the table valid and the emails unique. */
  lemma UpdateUserKeepsValid(db: Db, body: UserBody, userId: int)
    requires DbValid(db) && EmailsUnique(db.users.rows)
    requires UpdateUser(db, body, userId).Ok?
    ensures var db' := UpdateUser(db, body, userId).value.0;
            DbValid(db') && EmailsUnique(db'.users.rows)
  {
    var (db', u) := UpdateUser(db, body, userId).value;
    var before := FindUser(db, userId).value;
    ReplaceKeepsValid(db.users, UserKey, u);
    ReplacedEmailStaysUnique(db.users.rows, u);
  }

  /** Bookings refer to their booker, so after an update the user reading
      one of their bookings sees themself as updated. */
  lemma UpdatedUserShowsInBookings(db: Db, body: UserBody, userId: int, bookingId: int)
    requires DbValid(db)
    requires UpdateUser(db, body, userId).Ok?
    requires FindBooking(db, bookingId).Some? && FindBooking(db, bookingId).value.booker.id == userId
    ensures var (db', u) := UpdateUser(db, body, userId).value;
            && BookingService.GetBookingById(db', userId, bookingId).Ok?
            && BookingService.GetBookingById(db', userId, bookingId).value.booker == u
  {
    var (db', u) := UpdateUser(db, body, userId).value;
    FindAfterReplace(db.users, UserKey, u, userId);
    assert FindUser(db', userId) == Some(u);
  }

  /** Replacing the row of `u.id` by `u`, whose email no other id has,
      keeps the emails unique. */
  lemma ReplacedEmailStaysUnique(rows: seq<User>, u: User)
    requires UniqueKeys(rows, UserKey)
    requires EmailsUnique(rows)
    requires !EmailUsedByOther(rows, u.email, u.id)
    ensures EmailsUnique(Replace(rows, UserKey, u))
  {
    var r := Replace(rows, UserKey, u);
    forall i, j | 0 <= i < |r| && 0 <= j < |r| && i != j
      ensures r[i].email != r[j].email
    {
      if rows[i].id == u.id {
        assert UserKey(rows[i]) != UserKey(rows[j]);
        assert r[i] == u && r[j] == rows[j];
      } else if rows[j].id == u.id {
        assert UserKey(rows[i]) != UserKey(rows[j]);
        assert r[j] == u && r[i] == rows[i];
      } else {
        assert r[i] == rows[i] && r[j] == rows[j];
      }
    }
  }

  /** `deleteUser`: an unknown id is `NotFound` and nothing is deleted;
      otherwise exactly the rows of that id are removed. */
  function DeleteUser(db: Db, userId: int): (r: Result<Db>)
    ensures r.Err? <==> FindUser(db, userId).None?
    ensures r.Err? ==> r.kind == NotFound
    ensures r.Ok? ==> && r.value == db.(users := r.value.users)
                      && r.value.users.nextId == db.users.nextId
                      && forall u :: u in r.value.users.rows <==> u in db.users.rows && u.id != userId
  {
    match FindUser(db, userId)
    case None => Err(NotFound)
    case Some(_) => Ok(db.(users := db.users.(rows := Filter(db.users.rows, (u: User) => u.id != userId))))
  }

  /** Deleting a user keeps the table valid; the deleted id is no longer
      found, and it is below the counter, so it will not be handed out
      again. */
  lemma DeleteUserKeepsValid(db: Db, userId: int)
    requires DbValid(db)
    requires DeleteUser(db, userId).Ok?
    ensures var db' := DeleteUser(db, userId).value;
            && DbValid(db')
            && FindUser(db', userId).None?
            && userId < db'.users.nextId
  {
    FilterKeepsValid(db.users, UserKey, (u: User) => u.id != userId);
    var before := FindUser(db, userId).value;
  }
}
