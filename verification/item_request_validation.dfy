/** The description check of a new item request, in the `src/` revision:
    a predicate that the caller turns into an error. */
module ItemRequestValidation {
  import opened Common

  /** `itemRequestValidation`: false for a null, empty or one-space
      description, true for every other string. */
  function IsValid(description: Option<string>): (r: bool)
    ensures r <==> description.Some? && description.value != "" && description.value != " "
  {
    if description.None? then false
    else description.value != "" && description.value != " "
  }
}

/** The same check in the `server/` revision, which throws instead of
    answering. */
module ServerItemRequestValidation {
  import opened Common
  import ItemRequestValidation

  /** `itemRequestValidation`: `Validation` for a null, empty or one-space
      description; otherwise it returns normally. */
  function Validate(description: Option<string>): (r: Outcome)
    ensures r.Fail? <==> IsBlank(description)
    ensures r.Fail? ==> r.kind == Validation
  {
    if IsBlank(description) then Fail(Validation) else Pass
  }

  /** The two revisions agree: this one throws exactly when the other
      answers false. */
  lemma RevisionsAgree(description: Option<string>)
    ensures Validate(description).Fail? <==> !ItemRequestValidation.IsValid(description)
  {
  }
}
