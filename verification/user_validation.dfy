/** The validator run on a user before it is saved: the name first, then
    the email (not blank, then containing '@'). Every rule fails with a
    `Validation` error. */
module UserValidation {
  import opened Common

  /** A user as it arrives in a request body; either field may be null. */
  datatype UserBody = UserBody(name: Option<string>, email: Option<string>)

  /** `String.contains("@")`. */
  predicate HasAt(s: string)
  {
    exists i | 0 <= i < |s| :: s[i] == '@'
  }

  /** The rules of `userValidation`, in the order they are checked. */
  datatype Rule = NameRule | EmailBlankRule | EmailAtRule

  /** The first rule the user breaks, if any. */
  function FirstBroken(u: UserBody): (r: Option<Rule>)
    ensures r == Some(NameRule) <==> IsBlank(u.name)
    ensures r == Some(EmailBlankRule) <==> !IsBlank(u.name) && IsBlank(u.email)
    ensures r == Some(EmailAtRule) <==> !IsBlank(u.name) && !IsBlank(u.email) && !HasAt(u.email.value)
    ensures r.None? <==> !IsBlank(u.name) && !IsBlank(u.email) && HasAt(u.email.value)
  {
    if IsBlank(u.name) then Some(NameRule)
    else if IsBlank(u.email) then Some(EmailBlankRule)
    else if !HasAt(u.email.value) then Some(EmailAtRule)
    else None
  }

  /** `userValidation`: passes exactly when the name is not blank and the
      email is neither blank nor without an '@'; otherwise `Validation`. */
  function Validate(u: UserBody): (r: Outcome)
    ensures r == Pass <==> !IsBlank(u.name) && !IsBlank(u.email) && HasAt(u.email.value)
    ensures r.Fail? ==> r.kind == Validation
  {
    if FirstBroken(u).Some? then Fail(Validation) else Pass
  }

  /** Any text with an '@' somewhere, "@" alone included, is an acceptable
      email: the rule asks for the character, not for a well-formed
      address. */
  lemma AnyAtSignPasses(name: string, local: string, domain: string)
    requires name != "" && name != " "
    ensures Validate(UserBody(Some(name), Some(local + "@" + domain))) == Pass
  {
    assert (local + "@" + domain)[|local|] == '@';
  }
}
