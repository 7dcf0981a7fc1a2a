/** The persisted entities of the sharing service and the store that holds
    them. Timestamps are integers on one clock; ids are the store's
    identity values. */
module Entities {
  import opened Common
  import opened Tables

  datatype User = User(id: int, name: string, email: string)

  /** An item offered for sharing. `requestId` is the request it was listed
      in answer to, if any. Ownership is the owner's user id. */
  datatype Item = Item(
    id: int,
    name: string,
    description: string,
    available: bool,
    ownerId: int,
    requestId: Option<int>)

  /** The persisted status of a booking. */
  datatype BookingStatus = Waiting | Approved | Rejected

  /** A booking refers to its item and its booker. The row keeps the item
      and booker as they were at creation; a read goes through the
      reference and sees the rows stored now (`Resolved`). */
  datatype Booking = Booking(
    id: int,
    item: Item,
    booker: User,
    start: int,
    end: int,
    status: BookingStatus)

  /** A comment refers to its item and its author, kept and read like the
      references of a booking (`ResolvedComment`). */
  datatype Comment = Comment(id: int, text: string, item: Item, author: User, created: int)

  datatype ItemRequest = ItemRequest(id: int, description: string, author: User, created: int)

  function UserKey(u: User): int { u.id }
  function ItemKey(i: Item): int { i.id }
  function BookingKey(b: Booking): int { b.id }
  function CommentKey(c: Comment): int { c.id }
  function RequestKey(r: ItemRequest): int { r.id }

  /** Sort key for `order by start desc`. */
  function StartDescKey(b: Booking): int { -b.start }
  /** Sort key for `order by start asc`. */
  function StartAscKey(b: Booking): int { b.start }
  /** Sort key for `order by created desc`. */
  function CreatedDescKey(r: ItemRequest): int { -r.created }

  /** The relational store behind the JPA repositories, one table per entity. */
  datatype Db = Db(
    users: Table<User>,
    items: Table<Item>,
    bookings: Table<Booking>,
    comments: Table<Comment>,
    requests: Table<ItemRequest>)

  function FindUser(db: Db, id: int): Option<User> { Find(db.users.rows, UserKey, id) }
  function FindItem(db: Db, id: int): Option<Item> { Find(db.items.rows, ItemKey, id) }
  function FindBooking(db: Db, id: int): Option<Booking> { Find(db.bookings.rows, BookingKey, id) }
  function FindRequest(db: Db, id: int): Option<ItemRequest> { Find(db.requests.rows, RequestKey, id) }

  /** The identity columns of every table are consistent, and every stored
      booking has a start strictly before its end. */
  ghost predicate DbValid(db: Db)
  {
    && Valid(db.users, UserKey)
    && Valid(db.items, ItemKey)
    && Valid(db.bookings, BookingKey)
    && Valid(db.comments, CommentKey)
    && Valid(db.requests, RequestKey)
    && (forall b | b in db.bookings.rows :: b.start < b.end)
  }

  /** The item row stored now under `i`'s id; the copy `i` itself only when
      no such row is stored any more. */
  function CurrentItem(db: Db, i: Item): (r: Item)
    ensures r.id == i.id
    ensures FindItem(db, i.id).Some? ==> r == FindItem(db, i.id).value
    ensures FindItem(db, i.id).None? ==> r == i
  {
    match FindItem(db, i.id)
    case Some(stored) => stored
    case None => i
  }

  /** The user row stored now under `u`'s id, or the copy `u` if it is gone. */
  function CurrentUser(db: Db, u: User): (r: User)
    ensures r.id == u.id
    ensures FindUser(db, u.id).Some? ==> r == FindUser(db, u.id).value
    ensures FindUser(db, u.id).None? ==> r == u
  {
    match FindUser(db, u.id)
    case Some(stored) => stored
    case None => u
  }

  /** A booking as a read returns it: the `@ManyToOne` references load the
      item and booker rows stored now, so an update of either shows; the
      booking's own columns are as stored. */
  function Resolved(db: Db, b: Booking): (r: Booking)
    ensures r.id == b.id && r.start == b.start && r.end == b.end && r.status == b.status
    ensures r.item.id == b.item.id && r.booker.id == b.booker.id
    ensures FindItem(db, b.item.id).Some? ==> r.item == FindItem(db, b.item.id).value
    ensures FindUser(db, b.booker.id).Some? ==> r.booker == FindUser(db, b.booker.id).value
  {
    b.(item := CurrentItem(db, b.item), booker := CurrentUser(db, b.booker))
  }

  /** A comment as a read returns it: its item and author are the rows
      stored now; its id, text and creation time are as stored. */
  function ResolvedComment(db: Db, c: Comment): (r: Comment)
    ensures r.id == c.id && r.text == c.text && r.created == c.created
    ensures r.item.id == c.item.id && r.author.id == c.author.id
    ensures FindItem(db, c.item.id).Some? ==> r.item == FindItem(db, c.item.id).value
    ensures FindUser(db, c.author.id).Some? ==> r.author == FindUser(db, c.author.id).value
  {
    c.(item := CurrentItem(db, c.item), author := CurrentUser(db, c.author))
  }

  /** Reading through the references twice is reading once: the rows a
      read loads are the rows stored under their own ids. */
  lemma ResolvedIdempotent(db: Db, b: Booking, c: Comment)
    ensures Resolved(db, Resolved(db, b)) == Resolved(db, b)
    ensures ResolvedComment(db, ResolvedComment(db, c)) == ResolvedComment(db, c)
  {
  }

  /** A booking whose item and booker are the rows stored now reads back
      unchanged. */
  lemma CurrentCopiesReadUnchanged(db: Db, b: Booking)
    ensures Some(b.item) == FindItem(db, b.item.id) && Some(b.booker) == FindUser(db, b.booker.id)
            ==> Resolved(db, b) == b
  {
  }

  /** A comment whose item and author are the rows stored now reads back
      unchanged. */
  lemma CurrentCommentCopiesReadUnchanged(db: Db, c: Comment)
    ensures Some(c.item) == FindItem(db, c.item.id) && Some(c.author) == FindUser(db, c.author.id)
            ==> ResolvedComment(db, c) == c
  {
  }
}

/** Lower-casing and substring search on text, as the item search uses them. */
module Text {

  /** `Character.toLowerCase` on the Latin and basic Cyrillic capitals;
      every other character is returned unchanged. */
  function LowerChar(c: char): char
  {
    if 'A' <= c <= 'Z' then (c as int + 32) as char
    else if 'А' <= c <= 'Я' then (c as int + 32) as char
    else if c == 'Ё' then 'ё'
    else c
  }

  function Lower(s: string): (r: string)
    ensures |r| == |s|
    ensures forall i | 0 <= i < |s| :: r[i] == LowerChar(s[i])
  {
    if |s| == 0 then "" else [LowerChar(s[0])] + Lower(s[1..])
  }

  /** `t` occurs in `s` starting at position `i`. */
  predicate OccursAt(s: string, t: string, i: int)
  {
    0 <= i && i + |t| <= |s| && s[i..i + |t|] == t
  }

  /** `String.contains`: `t` occurs in `s` at some position. */
  predicate Contains(s: string, t: string)
  {
    exists i | 0 <= i <= |s| - |t| :: OccursAt(s, t, i)
  }

  /** Case-insensitive containment: both sides lower-cased first. */
  predicate ContainsIgnoringCase(s: string, t: string)
  {
    Contains(Lower(s), Lower(t))
  }

  /** Lower-casing twice gives the same text as lower-casing once. */
  lemma {:induction false} LowerIdempotent(s: string)
    ensures Lower(Lower(s)) == Lower(s)
  {
    if |s| > 0 {
      LowerIdempotent(s[1..]);
      assert Lower(Lower(s)) == [LowerChar(LowerChar(s[0]))] + Lower(Lower(s[1..]));
    }
  }

  /** Matching ignores the capitalisation of the searched text: searching
      for `t` and for its lower-cased form select the same strings. */
  lemma IgnoringCaseOfNeedle(s: string, t: string)
    ensures ContainsIgnoringCase(s, Lower(t)) == ContainsIgnoringCase(s, t)
  {
    LowerIdempotent(t);
  }
}
