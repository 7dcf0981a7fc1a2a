/** The validator run on the body of a new item. Every rule fails with a
    `Validation` error; they run name, description, availability, owner,
    and only the message tells which one failed first. */
module ItemValidation {
  import opened Common

  /** The request body of an item create or update; each field may be
      missing (null). */
  datatype ItemBody = ItemBody(
    name: Option<string>,
    description: Option<string>,
    available: Option<bool>,
    requestId: Option<int>)

  /** The four rules, in the order they are checked. */
  datatype Rule = NameRule | DescriptionRule | AvailableRule | OwnerRule

  /** Whether `rule` is broken by this body and owner id. */
  predicate Broken(rule: Rule, body: ItemBody, userId: Option<int>)
  {
    match rule
    case NameRule => IsBlank(body.name)
    case DescriptionRule => IsBlank(body.description)
    case AvailableRule => body.available.None?
    case OwnerRule => userId.None?
  }

  /** `itemValidation`: the first broken rule, if any, in the order
      name, description, available, owner. */
  function FirstBroken(body: ItemBody, userId: Option<int>): (r: Option<Rule>)
    ensures r.None? <==> forall rule: Rule :: !Broken(rule, body, userId)
    ensures r.Some? ==> Broken(r.value, body, userId)
    ensures r == Some(DescriptionRule) ==> !Broken(NameRule, body, userId)
    ensures r == Some(AvailableRule) ==> !Broken(NameRule, body, userId) && !Broken(DescriptionRule, body, userId)
    ensures r == Some(OwnerRule) ==> forall rule: Rule :: rule != OwnerRule ==> !Broken(rule, body, userId)
  {
    if IsBlank(body.name) then assert Broken(NameRule, body, userId); Some(NameRule)
    else if IsBlank(body.description) then assert Broken(DescriptionRule, body, userId); Some(DescriptionRule)
    else if body.available.None? then assert Broken(AvailableRule, body, userId); Some(AvailableRule)
    else if userId.None? then assert Broken(OwnerRule, body, userId); Some(OwnerRule)
    else None
  }

  /** The validator's observable outcome: it passes exactly when the name
      and description are not blank and both `available` and the owner id
      are given; any failure is a `Validation` error (a missing owner id
      included, not an internal error). */
  function Validate(body: ItemBody, userId: Option<int>): (r: Outcome)
    ensures r == Pass <==> && !IsBlank(body.name) && !IsBlank(body.description)
                           && body.available.Some? && userId.Some?
    ensures r.Fail? ==> r.kind == Validation
  {
    if FirstBroken(body, userId).Some? then Fail(Validation) else Pass
  }

  /** Only null, "" and " " are blank: every name of two or more
      characters passes, whitespace-only ones such as two spaces included. */
  lemma WiderWhitespaceIsAccepted(name: string, description: string, available: bool, requestId: Option<int>, userId: int)
    requires |name| >= 2
    requires description != "" && description != " "
    ensures Validate(ItemBody(Some(name), Some(description), Some(available), requestId), Some(userId)) == Pass
  {
  }
}

/** The validator run on the text of a new comment. */
module CommentValidation {
  import opened Common

  /** `commentValidation`: the text must not be null, "" or " "; anything
      else passes, and nothing is changed. */
  function Validate(text: Option<string>): (r: Outcome)
    ensures r == Pass <==> text.Some? && text.value != "" && text.value != " "
    ensures r.Fail? ==> r.kind == Validation
  {
    if IsBlank(text) then Fail(Validation) else Pass
  }
}
