# shareit booking core, modelled in Dafny

shareit is a sharing service. Users list items they are willing to lend. Other
users book an item for a period. The item's owner approves or rejects each
booking. Users who have borrowed an item may comment on it, and users may post
item requests that owners answer by listing new items.

This project models the service layer of that application as pure functions
over an immutable snapshot of the store:

- bookings: create, approve or reject, read, and list by state with paging;
- the booking validators of both revisions;
- the booking, item and item-request queries;
- the item, user and item-request services;
- the two in-memory repositories;
- the exception-to-HTTP mapping.

The store is a `Db` with one `Table` per entity. A table holds the rows in
storage order plus the next identity value. Every service call is a function
`Db × arguments → Result<(Db, answer)>`. A thrown exception is an `Err(kind)`
carrying the exception's class (`ErrorKind`), and the error that is checked
first wins. Nullable Java fields are `Option`. Time is an `int`, and the current
time is passed in as `now`.

Bookings and comments refer to an item and to users. As with JPA's
`@ManyToOne` references, every read shows the item and user rows stored at
that moment, so an item or user updated after a booking was made shows
updated in that booking (`ItemService.UpdatedItemShowsThroughReferences`,
`UserService.UpdatedUserShowsInBookings`).

Module layout (one module per source class):

- Common: Option, Result, Outcome and ErrorKind.
- Tables: the generic table and the find/insert/replace/filter/sort/page helpers.
- Entities and Text.
- BookingValidation and ServerBookingValidation.
- BookingRepository.
- BookingService.
- ItemValidation and CommentValidation.
- ItemRepository.
- ItemService.
- InMemoryItemRepository.
- UserValidation.
- InMemoryUserRepository.
- UserService.
- ItemRequestValidation and ServerItemRequestValidation.
- ItemRequestRepository.
- ItemRequestService.
- ErrorHandler.

Facts about the code that a reader may not expect:

- The CURRENT, PAST and FUTURE booking states are mutually exclusive but do not
  cover every booking. A booking whose start or end equals the current instant
  is in none of them (`BookingRepository.TimeConditionsNotExhaustive`).
- Before paging, every state's listing is a sub-multiset of the ALL listing
  (`BookingRepository.ConditionalWithinAll`). After paging this need not hold,
  because each state pages its own list.
- `updateItem` of the relational item service keeps the stored request link
  only if the body sends a request id again. An update without one drops the
  link. The model states this in `ItemService.UpdateItem`.
- In the relational user service, updating a user to an email another user has
  is not turned into a 409. The unique constraint of the `email` column fails
  in the store and is not handled (`StoreConstraint`, which
  `ErrorHandler.Handle` maps to no response).
- The WAITING and REJECTED listings for an owner's items carry no `order by`.
  For them the unpaged list is claimed only up to membership and multiplicity.
- Paging takes `from` as an offset and rounds it down to a whole page: the
  page returned is `from / size`, so `from = 5, size = 10` gives the first ten
  rows (`Tables.OffsetFiveSizeTenIsFirstPage`).

## Model

| member | source | states |
|---|---|---|
| Common.BlankIsExactlyThreeSpellings | src/main/java/ru/practicum/shareit/item/service/ItemValidation.java:17-18 | a field counts as blank exactly when it is null, `""` or `" "`; no other whitespace does |
| Tables.Find | src/main/java/ru/practicum/shareit/booking/service/BookingServiceImpl.java:63-68 | `findById` finds a stored row with that id, or reports none exactly when no row has it |
| Tables.FindUnique | src/main/java/ru/practicum/shareit/booking/service/BookingServiceImpl.java:63-68 | in a table with unique ids, looking up a stored row's id returns that very row |
| Tables.FindAfterInsert | src/main/java/ru/practicum/shareit/booking/service/BookingServiceImpl.java:58 | after `save` of a new row, looking up its id finds it and every other lookup is as before |
| Tables.InsertKeepsValid | src/main/java/ru/practicum/shareit/booking/service/BookingServiceImpl.java:58 | a row inserted under the counter's id keeps ids unique, positive and below the counter |
| Tables.Replace | src/main/java/ru/practicum/shareit/booking/service/BookingServiceImpl.java:89 | `save` of an existing entity replaces exactly the row with its id and leaves the others and the length unchanged |
| Tables.ReplaceWithSelf | src/main/java/ru/practicum/shareit/item/service/ItemServiceImpl.java:110 | saving a stored row unchanged leaves the table as it was |
| Tables.ReplaceKeepsValid | src/main/java/ru/practicum/shareit/booking/service/BookingServiceImpl.java:89 | replacing a row whose id is stored keeps the table valid |
| Tables.FindAfterReplace | src/main/java/ru/practicum/shareit/booking/service/BookingServiceImpl.java:89 | after `save` of an existing row, looking up its id finds the saved row, and every other lookup finds what it found before |
| Tables.Filter | src/main/java/ru/practicum/shareit/booking/repository/BookingRepository.java:15-28 | a `where` clause keeps exactly the rows satisfying it, each as often as it is stored |
| Tables.FilterKeepsValid | src/main/java/ru/practicum/shareit/user/service/UserServiceImpl.java:71-75 | deleting rows keeps the table valid and the counter where it was (proved by induction) |
| Tables.FilterKeepsUnique | src/main/java/ru/practicum/shareit/user/service/UserServiceImpl.java:71-75 | a sub-sequence of rows with unique ids has unique ids (proved by induction) |
| Tables.InsertSorted | src/main/java/ru/practicum/shareit/booking/repository/BookingRepository.java:15-16 | inserting into a sorted sequence keeps it sorted and adds exactly that element |
| Tables.SortBy | src/main/java/ru/practicum/shareit/booking/repository/BookingRepository.java:15-16 | `order by` yields a sorted permutation of its input |
| Tables.FirstOfSortedIsLeast | src/main/java/ru/practicum/shareit/booking/repository/BookingRepository.java:45-53 | the head of a sorted sequence has the least key, which is what `limit 1` after `order by` relies on |
| Tables.Page | src/main/java/ru/practicum/shareit/booking/service/BookingServiceImpl.java:115 | page `p` of size `n` is the slice starting at `p*n`, of length `min(n, rest)`, empty past the end |
| Tables.PageKeepsSorted | src/main/java/ru/practicum/shareit/booking/service/BookingServiceImpl.java:115 | a page of a sorted list is sorted |
| Tables.PageIsSubset | src/main/java/ru/practicum/shareit/booking/service/BookingServiceImpl.java:115 | every element of a page is in the listed sequence |
| Tables.PageStart | src/main/java/ru/practicum/shareit/booking/service/BookingServiceImpl.java:115 | the offset `from` is rounded down to a multiple of `size`: the start leaves no remainder modulo `size`, is at most `from` and is less than `size` below it |
| Tables.PageAt | src/main/java/ru/practicum/shareit/booking/service/BookingServiceImpl.java:115 | `PageRequest.of(from / size, size)` yields the page of the listing that offset `from` falls in: its length and each element |
| Tables.PageOfIsUnique | src/main/java/ru/practicum/shareit/booking/service/BookingServiceImpl.java:115 | that page is determined by the listing, the offset and the size |
| Tables.EveryRowOnItsPage | src/main/java/ru/practicum/shareit/booking/service/BookingServiceImpl.java:115 | paging loses no row: the row at position `n` is on the page for offset `n` |
| Tables.OffsetRoundsDown | src/main/java/ru/practicum/shareit/booking/service/BookingServiceImpl.java:115 | any offset inside a page gives that whole page |
| Tables.OffsetFiveSizeTenIsFirstPage | src/main/java/ru/practicum/shareit/booking/service/BookingServiceImpl.java:115 | offset 5 with size 10 gives the first page, the first ten rows when there are ten |
| Entities.Resolved | src/main/java/ru/practicum/shareit/booking/model/Booking.java:25-30 | a booking read through its item and booker references shows the item and user rows stored now under those ids, and keeps its own id, dates and status |
| Entities.ResolvedComment | server/src/main/java/ru/practicum/shareit/item/model/Comment.java:22-27 | a comment read through its item and author references shows the item and user rows stored now under those ids, and keeps its own id, text and date |
| Entities.ResolvedIdempotent | src/main/java/ru/practicum/shareit/booking/model/Booking.java:25-30 | reading a booking or comment a second time changes nothing |
| Entities.CurrentCopiesReadUnchanged | src/main/java/ru/practicum/shareit/booking/model/Booking.java:25-30 | a booking whose item and booker are the rows stored now reads back unchanged |
| Entities.CurrentCommentCopiesReadUnchanged | server/src/main/java/ru/practicum/shareit/item/model/Comment.java:22-27 | a comment whose item and author are the rows stored now reads back unchanged |
| Text.Lower | src/main/java/ru/practicum/shareit/item/repository/InMemoryItemRepository.java:69-70 | lower-casing keeps the length and maps each character independently |
| Text.LowerIdempotent | src/main/java/ru/practicum/shareit/item/repository/InMemoryItemRepository.java:69-70 | lower-casing twice is lower-casing once (proved by induction) |
| Text.IgnoringCaseOfNeedle | server/src/main/java/ru/practicum/shareit/item/repository/ItemRepository.java:19-22 | a case-insensitive match does not depend on the case of the search text |
| BookingValidation.Validate | src/main/java/ru/practicum/shareit/booking/service/BookingValidation.java:11-41 | passes iff the item is available, both dates are set, start < end and start is not before the validator's creation time, and the booker is not the owner; the owner rule alone fails with NotFound, the others with Validation, availability checked first |
| BookingValidation.AvailabilityCheckedFirst | src/main/java/ru/practicum/shareit/booking/service/BookingValidation.java:13-23 | an unavailable item is a Validation error even when the owner books it |
| ServerBookingValidation.Validate | server/src/main/java/ru/practicum/shareit/booking/service/BookingValidation.java:9-31 | with both dates present: passes iff available, start < end and booker is not owner; NotFound only for the owner rule |
| ServerBookingValidation.StrictIsLenientPlusPastCheck | server/src/main/java/ru/practicum/shareit/booking/service/BookingValidation.java:21-25 | the older validator passes exactly when the newer one does and the start is not in the past; whatever the newer one rejects the older one rejects |
| ServerBookingValidation.PastStartAcceptedOnlyHere | server/src/main/java/ru/practicum/shareit/booking/service/BookingValidation.java:21-25 | a well-ordered booking entirely in the past passes the newer validator and fails the older one |
| BookingRepository.OrderByStartDesc | src/main/java/ru/practicum/shareit/booking/repository/BookingRepository.java:15-16 | newest-start-first permutation of the input |
| BookingRepository.ForBooker | src/main/java/ru/practicum/shareit/booking/repository/BookingRepository.java:15-28 | exactly the bookings of the user meeting the state's condition, with multiplicity, newest start first |
| BookingRepository.ForItems | src/main/java/ru/practicum/shareit/booking/repository/BookingRepository.java:30-43 | exactly the bookings of the listed items meeting the condition, with multiplicity; sorted for every query that has `order by` |
| BookingRepository.FindLastBooking | src/main/java/ru/practicum/shareit/booking/repository/BookingRepository.java:45-53 | a booking of the item with that status starting before now and with the latest such start; none iff there is no candidate |
| BookingRepository.FindNextBooking | src/main/java/ru/practicum/shareit/booking/repository/BookingRepository.java:55-63 | a candidate starting after now with the earliest such start; none iff there is no candidate |
| BookingRepository.FindPastBookingsForUserAndItem | src/main/java/ru/practicum/shareit/booking/repository/BookingRepository.java:65-66 | exactly the bookings of that item by that user with that status that ended before `end` |
| BookingRepository.TimeConditionsExclusive | src/main/java/ru/practicum/shareit/booking/repository/BookingRepository.java:18-25 | no well-ordered booking is in two of CURRENT, PAST, FUTURE |
| BookingRepository.TimeConditionsNotExhaustive | src/main/java/ru/practicum/shareit/booking/repository/BookingRepository.java:18-25 | a booking starting or ending exactly now is in none of them |
| BookingRepository.LastBeforeNext | src/main/java/ru/practicum/shareit/booking/repository/BookingRepository.java:45-63 | when both exist, the last booking starts before now and before the next one |
| BookingRepository.ConditionalWithinAll | src/main/java/ru/practicum/shareit/booking/repository/BookingRepository.java:15-43 | before paging, every state's listing is a sub-multiset of the ALL listing, for bookers and for items |
| BookingRepository.BookerConditionalWithinAll | src/main/java/ru/practicum/shareit/booking/repository/BookingRepository.java:15-28 | each booker query in a state returns a sub-multiset of the booker's ALL query |
| BookingRepository.ItemsConditionalWithinAll | src/main/java/ru/practicum/shareit/booking/repository/BookingRepository.java:30-43 | each items query in a state returns a sub-multiset of the items' ALL query |
| BookingService.FirstNamed | src/main/java/ru/practicum/shareit/booking/service/BookingServiceImpl.java:153-158 | the loop returns a listed state whose name equals the text, or none when no listed state has that name |
| BookingService.GetBookingStateValue | src/main/java/ru/practicum/shareit/booking/service/BookingServiceImpl.java:152-160 | the state whose name is the text; IllegalArgument exactly when no state has that name |
| BookingService.ParseStateName | src/main/java/ru/practicum/shareit/booking/service/BookingServiceImpl.java:152-160 | parsing a state's name gives back that state |
| BookingService.ParseIsCaseSensitive | src/main/java/ru/practicum/shareit/booking/service/BookingServiceImpl.java:155 | the lower-case spelling of every state's name is refused with IllegalArgument: the comparison is exact |
| BookingService.CheckFromAndSize | src/main/java/ru/practicum/shareit/booking/service/BookingServiceImpl.java:195-201 | passes iff `from >= 0` and `size >= 1`, else Validation |
| BookingService.ListingPage | src/main/java/ru/practicum/shareit/booking/service/BookingServiceImpl.java:115 | exactly the page of the unpaged listing that offset `from` falls in: its length and every element, position by position |
| BookingService.AddNewBooking | src/main/java/ru/practicum/shareit/booking/service/BookingServiceImpl.java:50-59 | unknown item NotFound, then the validator's error, then unknown booker NotFound; on success exactly one WAITING booking with the request's dates, the next id, that item and booker is appended |
| BookingService.AddNewBookingKeepsStoreValid | src/main/java/ru/practicum/shareit/booking/service/BookingServiceImpl.java:50-59 | a created booking keeps the store valid |
| BookingService.ApproveOrRejectBooking | src/main/java/ru/practicum/shareit/booking/service/BookingServiceImpl.java:62-90 | NotFound for a missing booking or a caller who does not own the booked item as stored now; IsAlreadyDone iff the booking already has the requested decision; otherwise the booking, read with its current item and booker, gets the decided status, replaces the row of that id, and is returned |
| BookingService.ApproveOrRejectKeepsStoreValid | src/main/java/ru/practicum/shareit/booking/service/BookingServiceImpl.java:74-89 | a decision keeps the store valid and leaves every other booking unchanged |
| BookingService.SecondIdenticalDecisionFails | src/main/java/ru/practicum/shareit/booking/service/BookingServiceImpl.java:74-88 | repeating the same decision is IsAlreadyDone |
| BookingService.GetBookingById | src/main/java/ru/practicum/shareit/booking/service/BookingServiceImpl.java:93-106 | success iff the booking exists and the caller is its booker or the current owner of its item, and then the booking read with its current item and booker; NotFound otherwise |
| BookingService.CreatedBookingReadable | src/main/java/ru/practicum/shareit/booking/service/BookingServiceImpl.java:50-106 | a created booking is read back by its booker and by the booked item's owner, and is NotFound for every other caller |
| BookingService.GetBookingCurrentUser | src/main/java/ru/practicum/shareit/booking/service/BookingServiceImpl.java:109-127 | Validation, then NotFound, then IllegalArgument, and success exactly when none applies; on success exactly the page, at offset `from`, of the caller's bookings in the requested state, newest start first, each read with its current item and booker |
| BookingService.BookerListing | src/main/java/ru/practicum/shareit/booking/service/BookingServiceImpl.java:113-126 | exactly the page, at offset `from`, of the booker query in that state, each booking read with its current item and booker, newest start first |
| BookingService.BookerPageRead | src/main/java/ru/practicum/shareit/booking/service/BookingServiceImpl.java:113-126 | a booking of the booker query, read with current references, is the reading of a stored booking, by that booker, meeting the condition |
| BookingService.EveryBookingOnItsBookerPage | src/main/java/ru/practicum/shareit/booking/service/BookingServiceImpl.java:109-127 | the booking at position `n` of the caller's unpaged query, as read now, is in the listing asked for with `from = n` |
| BookingService.CreatedBookingListedForBooker | src/main/java/ru/practicum/shareit/booking/service/BookingServiceImpl.java:50-59 | a created booking is in its booker's unpaged query of every state whose condition it meets, which always includes ALL and WAITING |
| BookingService.CreatedBookingStored | src/main/java/ru/practicum/shareit/booking/service/BookingServiceImpl.java:50-59 | a created booking is stored, WAITING, on a stored item |
| BookingService.OwnedItemsBookingsAreOwned | src/main/java/ru/practicum/shareit/booking/service/BookingServiceImpl.java:134 | a booking of one of the user's items is a booking on an item the user owns |
| BookingService.OwnedItemBookingIsOwned | src/main/java/ru/practicum/shareit/booking/service/BookingServiceImpl.java:134 | a single booking on one of the user's listed items is on an item the user owns |
| BookingService.GetBookingForItemsCurrentUser | src/main/java/ru/practicum/shareit/booking/service/BookingServiceImpl.java:130-150 | same error order, and success exactly when none applies; on success exactly the page, at offset `from`, of the bookings of items the caller owns in that state, each read with its current item and booker, newest first except for WAITING and REJECTED |
| BookingService.OwnerListing | src/main/java/ru/practicum/shareit/booking/service/BookingServiceImpl.java:134-148 | exactly the page, at offset `from`, of the owner query in that state, each booking read with its current item and booker |
| BookingService.OwnerPageRead | src/main/java/ru/practicum/shareit/booking/service/BookingServiceImpl.java:134-148 | a booking of the owner query, read with current references, is the reading of a stored booking, on an item the user owns, meeting the condition |
| BookingService.OwnerBookings | src/main/java/ru/practicum/shareit/booking/service/BookingServiceImpl.java:134-148 | the unpaged owner query holds exactly the stored bookings of the owner's items meeting the state's condition |
| BookingService.EveryBookingOnItsOwnerPage | src/main/java/ru/practicum/shareit/booking/service/BookingServiceImpl.java:130-150 | the booking at position `n` of the unpaged owner query, as read now, is in the listing asked for with `from = n` |
| BookingService.CreatedBookingListedForOwner | src/main/java/ru/practicum/shareit/booking/service/BookingServiceImpl.java:50-59 | a created booking is in the unpaged owner query, of the booked item's owner, of every state whose condition it meets |
| BookingService.OwnedBookingListed | src/main/java/ru/practicum/shareit/booking/service/BookingServiceImpl.java:134 | a stored booking of a stored item the user owns is in the user's owner query for every state whose condition it meets |
| ItemValidation.FirstBroken | src/main/java/ru/practicum/shareit/item/service/ItemValidation.java:9-48 | the first broken rule in the order name, description, available, owner id; none iff none is broken |
| ItemValidation.Validate | src/main/java/ru/practicum/shareit/item/service/ItemValidation.java:9-48 | passes iff name and description are not blank, availability is given and the user id is present |
| ItemValidation.WiderWhitespaceIsAccepted | src/main/java/ru/practicum/shareit/item/service/ItemValidation.java:16-23 | any name or description of two or more spaces passes: only `""` and `" "` count as blank |
| CommentValidation.Validate | src/main/java/ru/practicum/shareit/item/service/CommentValidation.java:9-20 | passes iff the text is present and neither `""` nor `" "` |
| ItemRepository.FindItemsForUser | server/src/main/java/ru/practicum/shareit/item/repository/ItemRepository.java:16-17 | exactly the user's items, with multiplicity, in ascending id |
| ItemRepository.FoundItemIsOwned | server/src/main/java/ru/practicum/shareit/item/repository/ItemRepository.java:16-17 | each item `findItemsForUser` returns is a stored item owned by the user |
| ItemRepository.FindItemsForUserWithPage | server/src/main/java/ru/practicum/shareit/item/repository/ItemRepository.java:13-14 | one page of at most `size` of the user's items, ascending id |
| ItemRepository.SearchAvailable | server/src/main/java/ru/practicum/shareit/item/repository/ItemRepository.java:19-22 | exactly the available items whose name or description contains the text ignoring case |
| ItemRepository.FindAvailableItemsByNameOrDescription | server/src/main/java/ru/practicum/shareit/item/repository/ItemRepository.java:19-22 | one page of at most `size` matching available items |
| ItemRepository.FindItemsByRequests | server/src/main/java/ru/practicum/shareit/item/repository/ItemRepository.java:24-25 | exactly the items listed in answer to that request |
| ItemService.RefOf | src/main/java/ru/practicum/shareit/item/service/ItemServiceImpl.java:169-175 | the booking summary carries the booking's id and booker id, present iff the booking is |
| ItemService.CommentsOf | src/main/java/ru/practicum/shareit/item/service/ItemServiceImpl.java:180-186 | exactly the comments on the item; an empty list, never a missing one |
| ItemService.ToView | src/main/java/ru/practicum/shareit/item/service/ItemServiceImpl.java:147-186 | the item's fields; last and next approved bookings only when the viewer is the owner; the item's comments in storage order, each read with the item and author stored now, so every comment shows the stored item |
| ItemService.ViewShowsStoredComments | src/main/java/ru/practicum/shareit/item/service/ItemServiceImpl.java:180-186 | an item's view shows exactly the stored comments on that item, each read with its current item and author |
| ItemService.OwnerSeesBookingSummary | src/main/java/ru/practicum/shareit/item/service/ItemServiceImpl.java:166-178 | the owner sees a last booking iff an approved booking of the item started before now, and a next one iff one starts after now |
| ItemService.RequestLink | src/main/java/ru/practicum/shareit/item/service/ItemServiceImpl.java:226-231 | an unknown request id gives no link rather than an error |
| ItemService.AddNewItem | src/main/java/ru/practicum/shareit/item/service/ItemServiceImpl.java:58-70 | Validation, then unknown owner NotFound; otherwise the item is appended under the next id, owned by the caller, linked to the request when it exists |
| ItemService.AddNewItemKeepsStoreValid | src/main/java/ru/practicum/shareit/item/service/ItemServiceImpl.java:58-70 | adding an item keeps the store valid |
| ItemService.UpdateItem | src/main/java/ru/practicum/shareit/item/service/ItemServiceImpl.java:100-111 | no user InternalServer, unknown item NotFound, not the owner Forbidden, then unknown user NotFound, and success exactly when none applies; otherwise null fields are kept from the stored item, the request link comes from the body only, and that row is replaced |
| ItemService.Updated | src/main/java/ru/practicum/shareit/item/service/ItemServiceImpl.java:188-215 | the merged item keeps the stored id and owner; an empty patch of an unlinked item is the stored item |
| ItemService.UpdateItemStores | src/main/java/ru/practicum/shareit/item/service/ItemServiceImpl.java:100-111 | a successful update replaces the stored row of that id with the merged item |
| ItemService.UpdatedItemShowsThroughReferences | src/main/java/ru/practicum/shareit/item/service/ItemServiceImpl.java:100-111 | after an update, the owner reading a booking of the item sees the updated item, and so does every comment on the item's view |
| ItemService.UpdateItemKeepsStoreValid | src/main/java/ru/practicum/shareit/item/service/ItemServiceImpl.java:100-111 | an update keeps the store valid |
| ItemService.EmptyUpdateChangesNothing | src/main/java/ru/practicum/shareit/item/service/ItemServiceImpl.java:188-215 | an update with an empty body of an item without a request link leaves the store unchanged |
| ItemService.GetItemById | src/main/java/ru/practicum/shareit/item/service/ItemServiceImpl.java:121-128 | the item's view for that viewer, NotFound iff the item is missing |
| ItemService.OwnerPage | src/main/java/ru/practicum/shareit/item/service/ItemServiceImpl.java:117 | exactly the page, at offset `from`, of the owner's items in ascending id |
| ItemService.OwnerViews | src/main/java/ru/practicum/shareit/item/service/ItemServiceImpl.java:117 | position by position, the owner's views of that page of the owner's items |
| ItemService.GetAllItems | src/main/java/ru/practicum/shareit/item/service/ItemServiceImpl.java:114-118 | Validation, then NotFound; otherwise the caller's views of exactly the page, at offset `from`, of the caller's own items, ascending id |
| ItemService.EveryOwnedItemOnItsPage | src/main/java/ru/practicum/shareit/item/service/ItemServiceImpl.java:114-118 | the item at position `n` of the caller's unpaged items is shown when `from = n` |
| ItemService.CreatedItemListedForOwner | src/main/java/ru/practicum/shareit/item/service/ItemServiceImpl.java:58-70 | a created item is in its owner's unpaged item list |
| ItemService.SearchPage | src/main/java/ru/practicum/shareit/item/service/ItemServiceImpl.java:136 | exactly the page, at offset `from`, of the matching available items |
| ItemService.Search | src/main/java/ru/practicum/shareit/item/service/ItemServiceImpl.java:131-137 | Validation iff bad paging; an empty text gives an empty list; otherwise the views of exactly the page, at offset `from`, of the available items matching ignoring case |
| ItemService.EveryMatchOnItsPage | src/main/java/ru/practicum/shareit/item/service/ItemServiceImpl.java:131-137 | the match at position `n` of the unpaged search is shown when `from = n` |
| ItemService.CreatedItemFound | src/main/java/ru/practicum/shareit/item/service/ItemServiceImpl.java:58-70 | a created available item whose name contains the text, ignoring case, is found by the unpaged search |
| ItemService.AddNewComment | src/main/java/ru/practicum/shareit/item/service/ItemServiceImpl.java:73-97 | blank text Validation, unknown item then unknown user NotFound, no approved finished booking of the item by the user Validation; otherwise the comment is appended with the next id, the item, the author and `now` |
| ItemService.CommentShowsOnItem | src/main/java/ru/practicum/shareit/item/service/ItemServiceImpl.java:73-97 | a new comment keeps the store valid and appears, exactly as saved, in every later view of the item |
| InMemoryItemRepository.EmptyIsValid | src/main/java/ru/practicum/shareit/item/repository/InMemoryItemRepository.java:25-26 | the empty store with counter 1 is valid |
| InMemoryItemRepository.Add | src/main/java/ru/practicum/shareit/item/repository/InMemoryItemRepository.java:29-35 | the item is stored under the counter with the given owner, the counter advances and every other entry is unchanged |
| InMemoryItemRepository.AddKeepsValid | src/main/java/ru/practicum/shareit/item/repository/InMemoryItemRepository.java:29-35 | adding keeps keys equal to ids and below the counter; the new key was free |
| InMemoryItemRepository.Update | src/main/java/ru/practicum/shareit/item/repository/InMemoryItemRepository.java:38-44 | NotFound, then missing owner id InternalServer, then another owner Forbidden, and success exactly when the caller is the stored owner; otherwise null fields are kept, the request link is the patch's, and only that entry changes |
| InMemoryItemRepository.UpdateKeepsValid | src/main/java/ru/practicum/shareit/item/repository/InMemoryItemRepository.java:38-44 | an update keeps the store valid and its key set |
| InMemoryItemRepository.EmptyPatchChangesNothing | src/main/java/ru/practicum/shareit/item/repository/InMemoryItemRepository.java:80-103 | a patch by the owner with every field null, carrying the stored request link, leaves the store as it was |
| InMemoryItemRepository.GetAllItems | src/main/java/ru/practicum/shareit/item/repository/InMemoryItemRepository.java:47-55 | exactly the stored items of that owner |
| InMemoryItemRepository.AddedItemListed | src/main/java/ru/practicum/shareit/item/repository/InMemoryItemRepository.java:29-55 | after an add, the new item's owner's listing gains exactly that item and every other owner's listing is unchanged |
| InMemoryItemRepository.Search | src/main/java/ru/practicum/shareit/item/repository/InMemoryItemRepository.java:63-78 | nothing for an empty text; otherwise exactly the available items whose name or description contains the text ignoring case |
| InMemoryItemRepository.AddedItemFound | src/main/java/ru/practicum/shareit/item/repository/InMemoryItemRepository.java:29-78 | after an add, a search gains the new item exactly when the text is not empty and the item matches, and loses nothing |
| InMemoryItemRepository.SearchIgnoresCaseOfText | src/main/java/ru/practicum/shareit/item/repository/InMemoryItemRepository.java:69-70 | searching the lower-cased text gives the same result |
| InMemoryItemRepository.SearchWithinStore | src/main/java/ru/practicum/shareit/item/repository/InMemoryItemRepository.java:63-78 | search results are stored, available items |
| UserValidation.FirstBroken | src/main/java/ru/practicum/shareit/user/service/UserValidation.java:9-33 | which rule fails first: blank name, then blank email, then an email without `@` |
| UserValidation.Validate | src/main/java/ru/practicum/shareit/user/service/UserValidation.java:9-33 | passes iff name and email are not blank and the email contains `@` |
| UserValidation.AnyAtSignPasses | src/main/java/ru/practicum/shareit/user/service/UserValidation.java:29-32 | any non-blank name with an email of the form local `@` domain passes, whatever the two parts are, even both empty |
| InMemoryUserRepository.AddUser | src/main/java/ru/practicum/shareit/user/repository/InMemoryUserRepository.java:28-38 | IsAlreadyExists iff a stored user has that email; otherwise stored under the counter, which advances |
| InMemoryUserRepository.AddUserKeepsValid | src/main/java/ru/practicum/shareit/user/repository/InMemoryUserRepository.java:28-38 | adding keeps ids consistent and emails unique |
| InMemoryUserRepository.UpdateUser | src/main/java/ru/practicum/shareit/user/repository/InMemoryUserRepository.java:41-51 | NotFound; otherwise the call fails iff the body sends an email another user has, and then with IsAlreadyExists; otherwise null fields are kept and only that entry changes |
| InMemoryUserRepository.UpdateUserKeepsValid | src/main/java/ru/practicum/shareit/user/repository/InMemoryUserRepository.java:96-110 | an update keeps ids consistent and emails unique |
| InMemoryUserRepository.GetUserById | src/main/java/ru/practicum/shareit/user/repository/InMemoryUserRepository.java:64-72 | the stored user, NotFound iff the id is not stored |
| InMemoryUserRepository.GetAllUsers | src/main/java/ru/practicum/shareit/user/repository/InMemoryUserRepository.java:54-61 | exactly the stored users |
| InMemoryUserRepository.AddedUserListed | src/main/java/ru/practicum/shareit/user/repository/InMemoryUserRepository.java:28-61 | after an add, the listing holds exactly one more user, the new one |
| InMemoryUserRepository.DeleteUser | src/main/java/ru/practicum/shareit/user/repository/InMemoryUserRepository.java:75-83 | NotFound iff not stored; otherwise only that key is removed, the counter is kept |
| InMemoryUserRepository.DeletedUserUnlisted | src/main/java/ru/practicum/shareit/user/repository/InMemoryUserRepository.java:54-83 | after a delete, the listing holds every user but the deleted one |
| InMemoryUserRepository.IdsNeverReused | src/main/java/ru/practicum/shareit/user/repository/InMemoryUserRepository.java:24-31 | after a delete the store is valid and a new user never gets the deleted id |
| InMemoryUserRepository.SecondAddWithSameEmailFails | src/main/java/ru/practicum/shareit/user/repository/InMemoryUserRepository.java:85-94 | adding a second user with the same email is IsAlreadyExists |
| UserService.GetUserById | src/main/java/ru/practicum/shareit/user/service/UserServiceImpl.java:96-103 | the stored user with that id, NotFound iff missing |
| UserService.AddUser | src/main/java/ru/practicum/shareit/user/service/UserServiceImpl.java:34-46 | Validation; then the call fails iff a stored user has the email (the unique column), and then with IsAlreadyExists; otherwise appended under the next id |
| UserService.AddUserKeepsValid | src/main/java/ru/practicum/shareit/user/service/UserServiceImpl.java:34-46 | adding keeps the table valid and emails unique |
| UserService.Merged | src/main/java/ru/practicum/shareit/user/service/UserServiceImpl.java:77-86 | each absent field is taken from the stored user |
| UserService.UpdateUser | src/main/java/ru/practicum/shareit/user/service/UserServiceImpl.java:49-58 | NotFound; then the merged user is validated (Validation); when it passes, the call fails exactly when another user has the email, and then with StoreConstraint; otherwise that row is replaced |
| UserService.EmptyUpdateValidatesStoredUser | src/main/java/ru/practicum/shareit/user/service/UserServiceImpl.java:49-55 | an empty body validates exactly as the stored user does |
| UserService.UpdateUserKeepsValid | src/main/java/ru/practicum/shareit/user/service/UserServiceImpl.java:49-58 | an update keeps the table valid and emails unique |
| UserService.UpdatedUserShowsInBookings | src/main/java/ru/practicum/shareit/user/service/UserServiceImpl.java:49-58 | after a user update, the user reading one of their bookings sees themself as updated |
| UserService.ReplacedEmailStaysUnique | server/src/main/java/ru/practicum/shareit/user/model/User.java:22-23 | replacing a user by one whose email no other user has keeps the unique email column satisfied |
| UserService.DeleteUser | src/main/java/ru/practicum/shareit/user/service/UserServiceImpl.java:71-75 | NotFound iff missing; otherwise exactly that user's rows go, the counter stays |
| UserService.DeleteUserKeepsValid | src/main/java/ru/practicum/shareit/user/service/UserServiceImpl.java:71-75 | a delete keeps the table valid, the user is gone, and its id is below the counter |
| ItemRequestValidation.IsValid | src/main/java/ru/practicum/shareit/item_request/service/ItemRequestValidation.java:7-17 | true iff the description is present and neither `""` nor `" "` |
| ServerItemRequestValidation.Validate | server/src/main/java/ru/practicum/shareit/item_request/service/ItemRequestValidation.java:10-21 | Validation iff the description is blank |
| ServerItemRequestValidation.RevisionsAgree | server/src/main/java/ru/practicum/shareit/item_request/service/ItemRequestValidation.java:14-20 | the throwing revision fails exactly when the boolean revision says false |
| ItemRequestRepository.OrderByCreatedDesc | server/src/main/java/ru/practicum/shareit/item_request/repository/ItemRequestRepository.java:12 | a newest-first permutation |
| ItemRequestRepository.FindItemRequestsByAuthor | server/src/main/java/ru/practicum/shareit/item_request/repository/ItemRequestRepository.java:12-13 | exactly the author's requests, with multiplicity, newest first |
| ItemRequestRepository.OthersRequests | server/src/main/java/ru/practicum/shareit/item_request/repository/ItemRequestRepository.java:15-16 | exactly the requests of other users, with multiplicity, newest first |
| ItemRequestRepository.FindAllItemRequests | server/src/main/java/ru/practicum/shareit/item_request/repository/ItemRequestRepository.java:15-16 | one page of at most `size` requests of other users, newest first |
| ItemRequestRepository.OwnAndOthersPartition | server/src/main/java/ru/practicum/shareit/item_request/repository/ItemRequestRepository.java:12-16 | own and others' requests together are the stored requests, with no request in both |
| ItemRequestService.ToView | src/main/java/ru/practicum/shareit/item_request/service/ItemRequestServiceImpl.java:96-104 | the request's fields and exactly the items answering it |
| ItemRequestService.AddNewItemRequest | src/main/java/ru/practicum/shareit/item_request/service/ItemRequestServiceImpl.java:49-57 | unknown author NotFound before a blank description Validation; otherwise appended with the next id, the author and `now` |
| ItemRequestService.CreatedRequestCanBeRead | src/main/java/ru/practicum/shareit/item_request/service/ItemRequestServiceImpl.java:49-85 | a created request keeps the store valid and any existing user reads it back |
| ItemRequestService.GetOwnItemRequests | src/main/java/ru/practicum/shareit/item_request/service/ItemRequestServiceImpl.java:60-63 | NotFound iff the user is missing; otherwise, position by position, the views of the author's requests as `findItemRequestsByAuthor` lists them, newest first |
| ItemRequestService.OwnViews | src/main/java/ru/practicum/shareit/item_request/service/ItemRequestServiceImpl.java:62 | position by position, the views of the author's own requests, newest first |
| ItemRequestService.CreatedRequestListedForAuthor | src/main/java/ru/practicum/shareit/item_request/service/ItemRequestServiceImpl.java:49-63 | a created request is listed among its author's own requests |
| ItemRequestService.OwnRequestListed | src/main/java/ru/practicum/shareit/item_request/service/ItemRequestServiceImpl.java:60-63 | every stored request of the author is shown among the author's own |
| ItemRequestService.GetAllItemRequests | src/main/java/ru/practicum/shareit/item_request/service/ItemRequestServiceImpl.java:66-74 | NotFound before Validation; otherwise the views of exactly the page, at offset `from`, of other users' requests, newest first |
| ItemRequestService.OthersPage | src/main/java/ru/practicum/shareit/item_request/service/ItemRequestServiceImpl.java:73 | the views of exactly the page, at offset `from`, of other users' requests |
| ItemRequestService.OthersRequestPage | src/main/java/ru/practicum/shareit/item_request/service/ItemRequestServiceImpl.java:73 | exactly the page, at offset `from`, of other users' requests, newest first |
| ItemRequestService.EveryOthersRequestOnItsPage | src/main/java/ru/practicum/shareit/item_request/service/ItemRequestServiceImpl.java:66-74 | the request at position `n` of the unpaged query of others' requests is shown when `from = n` |
| ItemRequestService.CreatedRequestListedForOthers | src/main/java/ru/practicum/shareit/item_request/service/ItemRequestServiceImpl.java:49-74 | a created request is in every other user's unpaged listing |
| ItemRequestService.GetRequestById | src/main/java/ru/practicum/shareit/item_request/service/ItemRequestServiceImpl.java:77-85 | NotFound if the user or the request is missing; any existing user may read any request |
| ErrorHandler.Handle | server/src/main/java/ru/practicum/shareit/exception/ErrorHandler.java:12-52 | each handled exception kind gets its status and a body with the single key `error`; an unknown state always gets the fixed text; a store constraint failure is unhandled |
| ErrorHandler.ClientErrorsAndMessages | server/src/main/java/ru/practicum/shareit/exception/ErrorHandler.java:12-52 | every handled kind except internal errors is a 4xx; the body reflects the message except for an unknown state |
| ErrorHandler.ApprovalFailuresAreNotFoundOrBadRequest | server/src/main/java/ru/practicum/shareit/exception/ErrorHandler.java:18-22 | a failed approval is answered 404 or 400, never 403 |
| ErrorHandler.ListingFailuresAreClientErrors | server/src/main/java/ru/practicum/shareit/exception/ErrorHandler.java:42-46 | a failed booking listing is answered 400 or 404, and an unknown state gets the fixed text |

## Left out

- Controllers, the gateway module and its HTTP clients: they only forward requests and headers.
- DTO mappers: apart from the references below, they copy fields, and views here hold the same fields directly. The booking and comment mappers hand on the entity's item, booker and author references, which JPA loads from the rows stored at read time; the model reads them the same way (`Entities.Resolved`, `Entities.ResolvedComment`).
- Logging and exception message texts: messages are a parameter of `ErrorHandler.Handle`.
- The clock: `now` is a parameter, and the older booking validator's creation time is a field of `BookingValidation.Validator`.
- Concurrency and transactions: every call is atomic on an immutable snapshot.
- JPA internals: foreign keys, lazy loading and cascades are not modelled. A booking or comment whose item or user row is no longer stored reads with the copy taken when it was created. An identity value consumed by a failed insert is not modelled either, so the counter advances only on success.
- Tie order of `order by`: SQL leaves the order of equal keys unspecified. The unpaged listings are claimed only up to that: sorted, and the same bookings with the same multiplicity. The paged listings are claimed to be exactly the page of the modelled unpaged listing, which fixes one order among ties (storage order); another order among ties would give other pages.
- SQL `like` wildcards and escapes: a `%`, `_` or `\` in the search text is read as a literal character, whereas the database reads the first two as wildcards and the backslash as its default escape character.
- Text.Lower: lower-casing covers ASCII letters and the basic Cyrillic alphabet (including Ё) only, not the whole of Unicode.
- The source of the booking state enumeration (BookingState) is not part of this model. The six state names are the ones the listing methods switch on.
- ServerBookingValidation.Validate: requires both dates, because the newer validator dereferences them without a null check, and a null there throws a NullPointerException that no handler maps.
- InMemoryItemRepository.Add and InMemoryUserRepository.AddUser: a null field in the item or user passed to them is not modelled; every field is taken as present.
- The relational user service's `getAllUsers`: it returns every stored row unchanged.
- The newer revision's comment validator: it differs from the modelled one only in its message text.
- The older revision's exception handler: it keys each body by a per-kind Russian title instead of `error`, and it has no handlers for unknown states or repeated decisions. Only the newer handler is modelled.
- A non-zero id in the body of a create request: the model assumes create bodies carry no id, so `save` always inserts. In the relational services (`addUser`, `addNewComment`) the body is saved as received, and Spring Data's `save` of an entity with a non-zero id merges it into the stored row with that id, overwriting it. That merge is not modelled.
- A missing caller id: the `X-Sharer-User-Id` header is declared with `required = false`, so the id may be null. Where the code checks it (`addNewItem` and `updateItem`) it is an `Option` here. Everywhere else the model takes an `int`: there the null id is unboxed or dereferenced (for example at BookingServiceImpl.java:53, :69, :100 and :112, and at ItemServiceImpl.java:168), or passed to `findById` (ItemServiceImpl.java:82, ItemRequestServiceImpl.java:115), which rejects a null id. Either way the call ends in an exception that no handler maps.
