/** The member record of app/models/user.js: required names and email, the
    unique email index, and the `memberSince` and `isDeleted` defaults. */
module UserModel {
  import opened Common

  type UserId = Id

  datatype Member = Member(
    firstName: string,
    lastName: string,
    email: string,
    memberSince: Time,
    isDeleted: bool)

  /** The payload handed to `User.create`: any field may be missing. */
  datatype MemberInput = MemberInput(
    firstName: Option<string>,
    lastName: Option<string>,
    email: Option<string>,
    memberSince: Option<Time>,
    isDeleted: Option<bool>)

  /** Mongoose's `required` check for a String path: present and non-empty. */
  predicate Required(s: Option<string>)
  {
    s.Some? && s.value != ""
  }

  /** What Mongoose validation demands of a stored member. */
  predicate SchemaValid(m: Member)
  {
    m.firstName != "" && m.lastName != "" && m.email != ""
  }

  /** The document `User.create` builds and validates at time `now`. */
  function NewMember(input: MemberInput, now: Time): (r: Result<Member>)
    ensures r.Ok? <==> Required(input.firstName) && Required(input.lastName) && Required(input.email)
    ensures r.Err? ==> r.error == ValidationFailed
    ensures r.Ok? ==> SchemaValid(r.value)
    ensures r.Ok? ==>
      && Some(r.value.firstName) == input.firstName && Some(r.value.lastName) == input.lastName
      && Some(r.value.email) == input.email
      && r.value.memberSince == (if input.memberSince.Some? then input.memberSince.value else now)
      && r.value.isDeleted == (input.isDeleted == Some(true))
  {
    if Required(input.firstName) && Required(input.lastName) && Required(input.email) then
      Ok(Member(input.firstName.value, input.lastName.value, input.email.value,
                match input.memberSince case Some(t) => t case None => now,
                match input.isDeleted case Some(d) => d case None => false))
    else Err(ValidationFailed)
  }

  /** Some member other than `except` already holds the email. */
  predicate EmailTaken(members: map<UserId, Member>, email: string, except: Option<UserId>)
  {
    exists id :: id in members && Some(id) != except && members[id].email == email
  }

  /** The unique index on email. */
  predicate EmailsUnique(members: map<UserId, Member>)
  {
    forall i, j :: i in members && j in members && i != j ==> members[i].email != members[j].email
  }

  /** Without an explicit date or flag, a new member joins now and is not
      archived. */
  lemma NewMemberDefaults(input: MemberInput, now: Time)
    requires NewMember(input, now).Ok?
    requires input.memberSince.None? && input.isDeleted.None?
    ensures NewMember(input, now).value.memberSince == now
    ensures !NewMember(input, now).value.isDeleted
  {
  }
}
