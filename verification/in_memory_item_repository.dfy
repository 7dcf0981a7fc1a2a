/** The hash-map item store of the `src/` revision: an id counter, an
    owner-checked update that merges a partial item into the stored one,
    the owner listing and the substring search. Listings are sets, since
    the iteration order of the map is unspecified. */
module InMemoryItemRepository {
  import opened Common
  import opened Entities
  import opened Text
  import opened ItemValidation

  /** The map from id to item, and the next id to hand out (initially 1). */
  datatype ItemStore = ItemStore(items: map<int, Item>, nextId: int)

  const Empty: ItemStore := ItemStore(map[], 1)

  /** Every entry is filed under its own id, every id was handed out by the
      counter, and the counter is positive. */
  ghost predicate StoreValid(s: ItemStore)
  {
    && s.nextId >= 1
    && forall id | id in s.items :: s.items[id].id == id && 1 <= id < s.nextId
  }

  lemma EmptyIsValid()
    ensures StoreValid(Empty)
  {
  }

  /** `addNewItem`: the item gets the caller as owner and the current
      counter value as id, is stored under that id, and the counter moves
      on; no other entry changes. */
  function Add(s: ItemStore, item: Item, ownerId: int): (r: (ItemStore, Item))
    ensures var (s', stored) := r;
            && stored == item.(id := s.nextId, ownerId := ownerId)
            && s'.nextId == s.nextId + 1
            && s'.items.Keys == s.items.Keys + {s.nextId}
            && s'.items[s.nextId] == stored
            && forall id | id in s.items && id != s.nextId :: s'.items[id] == s.items[id]
  {
    var stored := item.(id := s.nextId, ownerId := ownerId);
    (ItemStore(s.items[s.nextId := stored], s.nextId + 1), stored)
  }

  lemma AddKeepsValid(s: ItemStore, item: Item, ownerId: int)
    requires StoreValid(s)
    ensures StoreValid(Add(s, item, ownerId).0)
    ensures s.nextId !in s.items
  {
  }

  /** `checkFieldsForUpdate` and `updateItem`. A missing id is `NotFound`;
      then a missing owner id is `InternalServer`; then an owner different
      from the stored one is `Forbidden`. Otherwise the fields the patch
      leaves null take their stored values, the others are overwritten,
      and the result is stored under the same id with the same owner;
      no other entry changes. */
  function Update(s: ItemStore, itemId: int, patch: ItemBody, ownerId: Option<int>): (r: Result<(ItemStore, Item)>)
    ensures itemId !in s.items ==> r == Err(NotFound)
    ensures itemId in s.items && ownerId.None? ==> r == Err(InternalServer)
    ensures itemId in s.items && ownerId.Some? && s.items[itemId].ownerId != ownerId.value ==> r == Err(Forbidden)
    ensures r.Ok? <==> itemId in s.items && ownerId == Some(s.items[itemId].ownerId)
    ensures r.Ok? ==>
              var (s', stored) := r.value;
              var before := s.items[itemId];
              && itemId in s.items && ownerId == Some(before.ownerId)
              && stored.id == itemId && stored.ownerId == before.ownerId
              && stored.name == (if patch.name.Some? then patch.name.value else before.name)
              && stored.description == (if patch.description.Some? then patch.description.value else before.description)
              && stored.available == (if patch.available.Some? then patch.available.value else before.available)
              && stored.requestId == patch.requestId
              && s' == s.(items := s.items[itemId := stored])
  {
    if itemId !in s.items then Err(NotFound)
    else if ownerId.None? then Err(InternalServer)
    else
      var before := s.items[itemId];
      if before.ownerId != ownerId.value then Err(Forbidden)
      else
        var stored := Item(
          itemId,
          if patch.name.None? then before.name else patch.name.value,
          if patch.description.None? then before.description else patch.description.value,
          if patch.available.None? then before.available else patch.available.value,
          ownerId.value,
          patch.requestId);
        Ok((s.(items := s.items[itemId := stored]), stored))
  }

  /** An update keeps the store valid and the set of ids unchanged. */
  lemma UpdateKeepsValid(s: ItemStore, itemId: int, patch: ItemBody, ownerId: Option<int>)
    requires StoreValid(s)
    requires Update(s, itemId, patch, ownerId).Ok?
    ensures StoreValid(Update(s, itemId, patch, ownerId).value.0)
    ensures Update(s, itemId, patch, ownerId).value.0.items.Keys == s.items.Keys
  {
  }

  /** An update with an all-null patch (and the stored request link) leaves
      the store as it was. */
  lemma EmptyPatchChangesNothing(s: ItemStore, itemId: int)
    requires StoreValid(s)
    requires itemId in s.items
    ensures var before := s.items[itemId];
            Update(s, itemId, ItemBody(None, None, None, before.requestId), Some(before.ownerId))
              == Ok((s, before))
  {
    var before := s.items[itemId];
    assert s.items[itemId := before] == s.items;
  }

  /** `getAllItems`: exactly the stored items of this owner. */
  function GetAllItems(s: ItemStore, ownerId: int): (r: set<Item>)
    ensures forall i :: i in r <==> i in s.items.Values && i.ownerId == ownerId
  {
    set i | i in s.items.Values && i.ownerId == ownerId
  }

  /** After an add, the owner listing of the new item's owner gains exactly
      that item, and every other owner's listing is unchanged. */
  lemma AddedItemListed(s: ItemStore, item: Item, ownerId: int, o: int)
    requires StoreValid(s)
    ensures var (s', stored) := Add(s, item, ownerId);
            GetAllItems(s', o) == GetAllItems(s, o) + (if o == ownerId then {stored} else {})
  {
    var (s', stored) := Add(s, item, ownerId);
    AddedValues(s, item, ownerId);
  }

  /** An add puts exactly the stored item into the map's values. */
  lemma AddedValues(s: ItemStore, item: Item, ownerId: int)
    requires StoreValid(s)
    ensures var (s', stored) := Add(s, item, ownerId);
            s'.items.Values == s.items.Values + {stored}
  {
    var stored := item.(id := s.nextId, ownerId := ownerId);
    assert Add(s, item, ownerId).0.items == s.items[s.nextId := stored];
    ValuesOfFreshUpdate(s.items, s.nextId, stored);
  }

  /** Storing under a fresh key adds exactly the stored value. */
  lemma ValuesOfFreshUpdate<K, V>(m: map<K, V>, k: K, v: V)
    requires k !in m
    ensures m[k := v].Values == m.Values + {v}
  {
    var m' := m[k := v];
    forall x | x in m'.Values
      ensures x in m.Values + {v}
    {
      var j :| j in m' && m'[j] == x;
      if j != k {
        assert m[j] == x;
      }
    }
    forall x | x in m.Values
      ensures x in m'.Values
    {
      var j :| j in m && m[j] == x;
      assert m'[j] == x;
    }
    assert m'[k] == v;
  }

  /** Whether an item is found by a search for `text`. */
  predicate Found(i: Item, text: string)
  {
    (ContainsIgnoringCase(i.name, text) || ContainsIgnoringCase(i.description, text)) && i.available
  }

  /** `getItemByNameOrDescription`: nothing for the empty text; otherwise
      the available items whose name or description contains the text,
      ignoring case. */
  function Search(s: ItemStore, text: string): (r: set<Item>)
    ensures text == "" ==> r == {}
    ensures text != "" ==> forall i :: i in r <==> i in s.items.Values && Found(i, text)
    ensures forall i | i in r :: i.available
  {
    if text == "" then {} else set i | i in s.items.Values && Found(i, text)
  }

  /** The search does not depend on the capitalisation of the text. */
  lemma SearchIgnoresCaseOfText(s: ItemStore, text: string)
    ensures Search(s, Lower(text)) == Search(s, text)
  {
    forall i: Item
      ensures Found(i, Lower(text)) == Found(i, text)
    {
      IgnoringCaseOfNeedle(i.name, text);
      IgnoringCaseOfNeedle(i.description, text);
    }
  }

  /** After an add, a search finds the new item exactly when the text is not
      empty and the item matches; every earlier result is still found. */
  lemma AddedItemFound(s: ItemStore, item: Item, ownerId: int, text: string)
    requires StoreValid(s)
    ensures var (s', stored) := Add(s, item, ownerId);
            Search(s', text) == Search(s, text) + (if text != "" && Found(stored, text) then {stored} else {})
  {
    AddedValues(s, item, ownerId);
  }

  /** The search only returns items of the store that are available. */
  lemma SearchWithinStore(s: ItemStore, text: string)
    ensures Search(s, text) <= set i | i in s.items.Values && i.available
  {
  }
}
