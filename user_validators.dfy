/** The request validators of app/schemas/users.js, chained the same way as
    the book validators. validator.js's `isEmail` and `isDate` are given as
    parameters: their grammars are not part of this model. */
module UserValidators {
  import opened Common
  import opened RequestBody
  import opened UserModel

  datatype Field = FirstName | LastName | Email | MemberSince

  datatype Message = RequiredMsg(of: Field) | InvalidMsg(of: Field) | DefaultMsg

  datatype FieldError = FieldError(path: Field, msg: Message)

  datatype UserBody = UserBody(
    firstName: Option<Value>, lastName: Option<Value>, email: Option<Value>, memberSince: Option<Value>)

  /** The text of each message. memberSince has no required message and no
      chain builds `RequiredMsg(MemberSince)`; the datatype admits it, and
      its text is the library default. */
  function Text(m: Message): string
  {
    match m
    case DefaultMsg => "Invalid value"
    case RequiredMsg(FirstName) => "Поле `Имя` обязательно для заполнения"
    case RequiredMsg(LastName) => "Поле `Фамилия` обязательно для заполнения"
    case RequiredMsg(Email) => "Поле `Email` обязательно для заполнения"
    case RequiredMsg(MemberSince) => "Invalid value"
    case InvalidMsg(FirstName) => "Неверное значение для поля `Имя`"
    case InvalidMsg(LastName) => "Неверное значение для поля `Фамилия`"
    case InvalidMsg(Email) => "Неверное значение для поля `Email`"
    case InvalidMsg(MemberSince) => "Неверное значение для поля `Дата регистрации`"
  }

  /** `body(path, requiredMsg).notEmpty().<check>.withMessage(invalidMsg)` */
  function RequiredChain(path: Field, v: Option<Value>, requiredMsg: Message, check: bool, invalidMsg: Message): (r: seq<FieldError>)
    ensures r == [] <==> NotEmpty(v) && check
    ensures forall k :: 0 <= k < |r| ==> r[k].path == path
    ensures !NotEmpty(v) ==> FieldError(path, requiredMsg) in r
    ensures !check ==> FieldError(path, invalidMsg) in r
    ensures |r| == (if NotEmpty(v) then 0 else 1) + (if check then 0 else 1)
    ensures !NotEmpty(v) ==> r[0] == FieldError(path, requiredMsg)
    ensures !check ==> r[|r| - 1] == FieldError(path, invalidMsg)
    ensures forall k :: 0 <= k < |r| ==> r[k].msg == requiredMsg || r[k].msg == invalidMsg
    ensures NotEmpty(v) ==> forall k :: 0 <= k < |r| ==> r[k].msg == invalidMsg
  {
    (if NotEmpty(v) then [] else [FieldError(path, requiredMsg)])
      + (if check then [] else [FieldError(path, invalidMsg)])
  }

  /** `body(path).optional().notEmpty().<check>.withMessage(invalidMsg)`.
      The book validators build the same chain; each module keeps its own
      because the field names and messages are each module's own datatypes,
      as the two schema files each declare their own chains. */
  function OptionalChain(path: Field, v: Option<Value>, check: bool, invalidMsg: Message): (r: seq<FieldError>)
    ensures r == [] <==> v.None? || (NotEmpty(v) && check)
    ensures forall k :: 0 <= k < |r| ==> r[k].path == path
    ensures v.Some? && !NotEmpty(v) ==> FieldError(path, DefaultMsg) in r
    ensures v.Some? && !check ==> FieldError(path, invalidMsg) in r
    ensures |r| == if v.None? then 0 else (if NotEmpty(v) then 0 else 1) + (if check then 0 else 1)
    ensures v.Some? && !NotEmpty(v) ==> r[0] == FieldError(path, DefaultMsg)
    ensures v.Some? && !check ==> r[|r| - 1] == FieldError(path, invalidMsg)
    ensures forall k :: 0 <= k < |r| ==> r[k].msg == DefaultMsg || r[k].msg == invalidMsg
  {
    if v.None? then [] else RequiredChain(path, v, DefaultMsg, check, invalidMsg)
  }

  /** `body("memberSince").optional().isDate().withMessage(...)`, the same in
      both validators: no emptiness check. */
  function MemberSinceChain(v: Option<Value>, isDate: string -> bool): (r: seq<FieldError>)
    ensures r == [] <==> v.None? || isDate(ToStr(v))
    ensures r != [] ==> r == [FieldError(MemberSince, InvalidMsg(MemberSince))]
  {
    if v.None? || isDate(ToStr(v)) then [] else [FieldError(MemberSince, InvalidMsg(MemberSince))]
  }

  /** registerUserValidator */
  function RegisterErrors(b: UserBody, isEmail: string -> bool, isDate: string -> bool): (r: seq<FieldError>)
    ensures r == [] <==>
      NotEmpty(b.firstName) && IsString(b.firstName) && NotEmpty(b.lastName) && IsString(b.lastName)
      && NotEmpty(b.email) && isEmail(ToStr(b.email))
      && (b.memberSince.None? || isDate(ToStr(b.memberSince)))
  {
    RequiredChain(FirstName, b.firstName, RequiredMsg(FirstName), IsString(b.firstName), InvalidMsg(FirstName))
      + RequiredChain(LastName, b.lastName, RequiredMsg(LastName), IsString(b.lastName), InvalidMsg(LastName))
      + RequiredChain(Email, b.email, RequiredMsg(Email), isEmail(ToStr(b.email)), InvalidMsg(Email))
      + MemberSinceChain(b.memberSince, isDate)
  }

  /** updateUserValidator */
  function UpdateErrors(b: UserBody, isEmail: string -> bool, isDate: string -> bool): (r: seq<FieldError>)
    ensures r == [] <==>
      (b.firstName.None? || (NotEmpty(b.firstName) && IsString(b.firstName)))
      && (b.lastName.None? || (NotEmpty(b.lastName) && IsString(b.lastName)))
      && (b.email.None? || (NotEmpty(b.email) && isEmail(ToStr(b.email))))
      && (b.memberSince.None? || isDate(ToStr(b.memberSince)))
  {
    OptionalChain(FirstName, b.firstName, IsString(b.firstName), InvalidMsg(FirstName))
      + OptionalChain(LastName, b.lastName, IsString(b.lastName), InvalidMsg(LastName))
      + OptionalChain(Email, b.email, isEmail(ToStr(b.email)), InvalidMsg(Email))
      + MemberSinceChain(b.memberSince, isDate)
  }

  /** On a body that fills the three required fields with something
      non-empty, update reports exactly what register reports. */
  lemma UpdateAgreesWithRegister(b: UserBody, isEmail: string -> bool, isDate: string -> bool)
    requires NotEmpty(b.firstName) && NotEmpty(b.lastName) && NotEmpty(b.email)
    ensures UpdateErrors(b, isEmail, isDate) == RegisterErrors(b, isEmail, isDate)
  {
  }

  /** A register body without memberSince reports nothing about it. */
  lemma MemberSinceIsOptional(b: UserBody, isEmail: string -> bool, isDate: string -> bool)
    requires b.memberSince.None?
    ensures forall k :: 0 <= k < |RegisterErrors(b, isEmail, isDate)| ==>
      RegisterErrors(b, isEmail, isDate)[k].path != MemberSince
  {
  }

  /** An empty email is reported as missing whatever isEmail says. */
  lemma EmptyEmailIsMissing(b: UserBody, isEmail: string -> bool, isDate: string -> bool)
    requires b.email == Some(JStr(""))
    ensures FieldError(Email, RequiredMsg(Email)) in RegisterErrors(b, isEmail, isDate)
  {
    var e := RequiredChain(Email, b.email, RequiredMsg(Email), isEmail(ToStr(b.email)), InvalidMsg(Email));
    var r := RegisterErrors(b, isEmail, isDate);
    var k :| 0 <= k < |e| && e[k] == FieldError(Email, RequiredMsg(Email));
    var head := RequiredChain(FirstName, b.firstName, RequiredMsg(FirstName), IsString(b.firstName), InvalidMsg(FirstName))
      + RequiredChain(LastName, b.lastName, RequiredMsg(LastName), IsString(b.lastName), InvalidMsg(LastName));
    assert r[|head| + k] == e[k];
  }

  /** An update body with no fields passes. */
  lemma EmptyUpdateAccepted(isEmail: string -> bool, isDate: string -> bool)
    ensures UpdateErrors(UserBody(None, None, None, None), isEmail, isDate) == []
  {
  }

  /** The payload the controller hands to `User.create`; `dateOf` reads a
      date string as a timestamp. */
  function RegisterInput(b: UserBody, dateOf: string -> Time): MemberInput
  {
    MemberInput(StringCast(b.firstName), StringCast(b.lastName), StringCast(b.email),
                if b.memberSince.Some? then Some(dateOf(ToStr(b.memberSince))) else None, None)
  }

  /** A body the register validator accepts makes a member that passes
      Mongoose validation. */
  lemma AcceptedRegisterIsValid(b: UserBody, isEmail: string -> bool, isDate: string -> bool,
                                dateOf: string -> Time, now: Time)
    requires RegisterErrors(b, isEmail, isDate) == []
    ensures NewMember(RegisterInput(b, dateOf), now).Ok?
  {
  }
}
