/** The member form check of frontend/src/Users.tsx: the three names and
    the email must be non-empty strings; the join date is not checked. */
module UserForm {
  import opened Common
  import opened RequestBody
  import UserValidators

  datatype FormUser = FormUser(
    firstName: Option<Value>, lastName: Option<Value>, email: Option<Value>, memberSince: Option<Value>)

  datatype UserErrors = UserErrors(firstName: string, lastName: string, email: string)

  const FirstNameMissing: string := "Имя является обязательным полем"
  const LastNameMissing: string := "Фамилия является обязательным полем"
  const EmailMissing: string := "Email является обязательным полем"

  /** `Object.values(errors).some((error) => error)` */
  predicate Blocked(e: UserErrors)
  {
    e.firstName != "" || e.lastName != "" || e.email != ""
  }

  /** validateUser */
  function ValidateUser(u: FormUser): (e: UserErrors)
    ensures e.firstName == "" <==> HasLength(u.firstName)
    ensures e.lastName == "" <==> HasLength(u.lastName)
    ensures e.email == "" <==> HasLength(u.email)
    ensures e.firstName != "" ==> e.firstName == FirstNameMissing
    ensures e.lastName != "" ==> e.lastName == LastNameMissing
    ensures e.email != "" ==> e.email == EmailMissing
  {
    UserErrors(
      if HasLength(u.firstName) then "" else FirstNameMissing,
      if HasLength(u.lastName) then "" else LastNameMissing,
      if HasLength(u.email) then "" else EmailMissing)
  }

  /** A row is sent exactly when the three fields are non-empty strings. */
  lemma BlocksUnlessFilled(u: FormUser)
    ensures !Blocked(ValidateUser(u)) <==> HasLength(u.firstName) && HasLength(u.lastName) && HasLength(u.email)
  {
  }

  /** The join date plays no part in the check. */
  lemma MemberSinceIgnored(u: FormUser, d: Option<Value>)
    ensures ValidateUser(u.(memberSince := d)) == ValidateUser(u)
  {
  }

  function Body(u: FormUser): UserValidators.UserBody
  {
    UserValidators.UserBody(u.firstName, u.lastName, u.email, u.memberSince)
  }

  /** A row the check lets through gets no "required" error and no error
      on the names from the server's register validator; only the email
      format and the date remain for the server to refuse. */
  lemma PassMeansNamesAccepted(u: FormUser, isEmail: string -> bool, isDate: string -> bool)
    requires !Blocked(ValidateUser(u))
    ensures forall k :: 0 <= k < |UserValidators.RegisterErrors(Body(u), isEmail, isDate)| ==>
      var e := UserValidators.RegisterErrors(Body(u), isEmail, isDate)[k];
      !e.msg.RequiredMsg? && e.path != UserValidators.FirstName && e.path != UserValidators.LastName
  {
    var b := Body(u);
    var first := UserValidators.RequiredChain(UserValidators.FirstName, b.firstName,
      UserValidators.RequiredMsg(UserValidators.FirstName), IsString(b.firstName),
      UserValidators.InvalidMsg(UserValidators.FirstName));
    var last := UserValidators.RequiredChain(UserValidators.LastName, b.lastName,
      UserValidators.RequiredMsg(UserValidators.LastName), IsString(b.lastName),
      UserValidators.InvalidMsg(UserValidators.LastName));
    assert first == [] && last == [];
  }
}
