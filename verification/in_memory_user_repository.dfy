/** The hash-map user store of the `src/` revision: an id counter that is
    never wound back, exact-match email uniqueness on add and update, the
    null-field merge of an update, and deletion. */
module InMemoryUserRepository {
  import opened Common
  import opened Entities
  import opened UserValidation

  /** The map from id to user, and the next id to hand out (initially 1). */
  datatype UserStore = UserStore(users: map<int, User>, nextId: int)

  const Empty: UserStore := UserStore(map[], 1)

  /** No two stored users share an email. */
  ghost predicate EmailsUnique(s: UserStore)
  {
    forall a, b | a in s.users && b in s.users && a != b :: s.users[a].email != s.users[b].email
  }

  /** Every entry is filed under its own id, every id was handed out by the
      counter, and emails are unique. */
  ghost predicate StoreValid(s: UserStore)
  {
    && s.nextId >= 1
    && (forall id | id in s.users :: s.users[id].id == id && 1 <= id < s.nextId)
    && EmailsUnique(s)
  }

  /** Some stored user other than `except` has exactly this email. */
  predicate EmailUsedByOther(s: UserStore, email: string, except: int)
  {
    exists id | id in s.users :: s.users[id].email == email && id != except
  }

  /** `checkDuplicateEmail`, negated: some stored user has this email. */
  predicate EmailTaken(s: UserStore, email: string)
  {
    exists id | id in s.users :: s.users[id].email == email
  }

  /** `addUser`: an email already stored (compared exactly) is
      `IsAlreadyExists` and the store is unchanged, counter included.
      Otherwise the user is stored under the current counter value, which
      then moves on; no other entry changes. */
  function AddUser(s: UserStore, name: string, email: string): (r: Result<(UserStore, User)>)
    ensures r.Err? <==> EmailTaken(s, email)
    ensures r.Err? ==> r.kind == IsAlreadyExists
    ensures r.Ok? ==>
              var (s', u) := r.value;
              && u == User(s.nextId, name, email)
              && s' == UserStore(s.users[s.nextId := u], s.nextId + 1)
  {
    if EmailTaken(s, email) then Err(IsAlreadyExists)
    else
      var u := User(s.nextId, name, email);
      Ok((UserStore(s.users[s.nextId := u], s.nextId + 1), u))
  }

  lemma AddUserKeepsValid(s: UserStore, name: string, email: string)
    requires StoreValid(s)
    requires AddUser(s, name, email).Ok?
    ensures StoreValid(AddUser(s, name, email).value.0)
    ensures s.nextId !in s.users
  {
  }

  /** `updateUser` and `checkFieldsForUpdate`. A missing id is `NotFound`.
      A given email that another user already has is `IsAlreadyExists`;
      the user's own current email may be sent again. The fields the body
      leaves null take their stored values, and the result is stored under
      the path id whatever id the body carried; no other entry changes. */
  function UpdateUser(s: UserStore, body: UserBody, userId: int): (r: Result<(UserStore, User)>)
    ensures userId !in s.users ==> r == Err(NotFound)
    ensures userId in s.users ==>
              (r.Err? <==> body.email.Some? && EmailUsedByOther(s, body.email.value, userId))
    ensures userId in s.users && r.Err? ==> r == Err(IsAlreadyExists)
    ensures r.Ok? ==>
              var (s', u) := r.value;
              var before := s.users[userId];
              && userId in s.users
              && u.id == userId
              && u.name == (if body.name.Some? then body.name.value else before.name)
              && u.email == (if body.email.Some? then body.email.value else before.email)
              && s' == s.(users := s.users[userId := u])
  {
    if userId !in s.users then Err(NotFound)
    else
      var before := s.users[userId];
      if body.email.Some? && EmailUsedByOther(s, body.email.value, userId) then Err(IsAlreadyExists)
      else
        var u := User(
          userId,
          if body.name.None? then before.name else body.name.value,
          if body.email.None? then before.email else body.email.value);
        Ok((s.(users := s.users[userId := u]), u))
  }

  /** Updates keep the store valid: in particular no two users end up with
      the same email. */
  lemma UpdateUserKeepsValid(s: UserStore, body: UserBody, userId: int)
    requires StoreValid(s)
    requires UpdateUser(s, body, userId).Ok?
    ensures StoreValid(UpdateUser(s, body, userId).value.0)
  {
    var (s', u) := UpdateUser(s, body, userId).value;
    forall a, b | a in s'.users && b in s'.users && a != b
      ensures s'.users[a].email != s'.users[b].email
    {
      if a == userId && body.email.Some? {
        assert !EmailUsedByOther(s, body.email.value, userId);
        assert s.users[b].email != body.email.value;
      } else if b == userId && body.email.Some? {
        assert !EmailUsedByOther(s, body.email.value, userId);
        assert s.users[a].email != body.email.value;
      }
    }
  }

  /** `getUserById`: the stored user, or `NotFound`. */
  function GetUserById(s: UserStore, userId: int): (r: Result<User>)
    ensures r.Err? <==> userId !in s.users
    ensures r.Err? ==> r.kind == NotFound
    ensures r.Ok? ==> r.value == s.users[userId]
  {
    if userId !in s.users then Err(NotFound) else Ok(s.users[userId])
  }

  /** `getAllUsers`: every stored user, and nothing else. */
  function GetAllUsers(s: UserStore): (r: set<User>)
    ensures forall id | id in s.users :: s.users[id] in r
    ensures forall u | u in r :: exists id | id in s.users :: s.users[id] == u
  {
    set id | id in s.users :: s.users[id]
  }

  /** After an add, the listing holds exactly one more user: the new one. */
  lemma AddedUserListed(s: UserStore, name: string, email: string)
    requires StoreValid(s)
    requires AddUser(s, name, email).Ok?
    ensures var (s', u) := AddUser(s, name, email).value;
            GetAllUsers(s') == GetAllUsers(s) + {u} && u !in GetAllUsers(s)
  {
    var (s', u) := AddUser(s, name, email).value;
    assert s.nextId !in s.users;
    forall x | x in GetAllUsers(s')
      ensures x in GetAllUsers(s) + {u}
    {
      var id :| id in s'.users && s'.users[id] == x;
      if id != s.nextId {
        assert s.users[id] == x;
      }
    }
    forall x | x in GetAllUsers(s)
      ensures x in GetAllUsers(s')
    {
      var id :| id in s.users && s.users[id] == x;
      assert s'.users[id] == x;
    }
    assert s'.users[s.nextId] == u;
  }

  /** `deleteUser`: a missing id is `NotFound`; otherwise exactly that
      entry is removed and the counter is kept. */
  function DeleteUser(s: UserStore, userId: int): (r: Result<UserStore>)
    ensures r.Err? <==> userId !in s.users
    ensures r.Err? ==> r.kind == NotFound
    ensures r.Ok? ==> r.value.users.Keys == s.users.Keys - {userId} && r.value.nextId == s.nextId
    ensures r.Ok? ==> forall id | id in r.value.users :: r.value.users[id] == s.users[id]
  {
    if userId !in s.users then Err(NotFound) else Ok(s.(users := s.users - {userId}))
  }

  /** After a delete, the listing holds every user but the deleted one. */
  lemma DeletedUserUnlisted(s: UserStore, userId: int)
    requires StoreValid(s)
    requires DeleteUser(s, userId).Ok?
    ensures GetAllUsers(DeleteUser(s, userId).value) == GetAllUsers(s) - {s.users[userId]}
  {
    var s' := DeleteUser(s, userId).value;
    forall x | x in GetAllUsers(s')
      ensures x in GetAllUsers(s) && x != s.users[userId]
    {
      var id :| id in s'.users && s'.users[id] == x;
      assert x.id == id;
    }
    forall x | x in GetAllUsers(s) && x != s.users[userId]
      ensures x in GetAllUsers(s')
    {
      var id :| id in s.users && s.users[id] == x;
      assert id != userId;
      assert s'.users[id] == x;
    }
  }

  /** An id is never handed out twice: after deleting a user, the next user
      added gets a different id, and the store stays valid throughout. */
  lemma IdsNeverReused(s: UserStore, userId: int, name: string, email: string)
    requires StoreValid(s)
    requires DeleteUser(s, userId).Ok?
    requires AddUser(DeleteUser(s, userId).value, name, email).Ok?
    ensures StoreValid(DeleteUser(s, userId).value)
    ensures AddUser(DeleteUser(s, userId).value, name, email).value.1.id != userId
  {
  }

  /** The second of two adds with the same email fails. */
  lemma SecondAddWithSameEmailFails(s: UserStore, name: string, otherName: string, email: string)
    requires AddUser(s, name, email).Ok?
    ensures AddUser(AddUser(s, name, email).value.0, otherName, email) == Err(IsAlreadyExists)
  {
    var s' := AddUser(s, name, email).value.0;
    assert s'.users[s.nextId].email == email;
  }
}
