/** The request validators of backend/app/schemas/books.js. Each field is a
    chain of express-validator checks; every failing check reports one error
    for its field, with the message given by the chain's `withMessage` (for
    the last check) or by `body(field, message)` (for the others), and
    "Invalid value" where neither gives one. The update chains start with
    `.optional()`, so a field that is not in the body is not checked. */
module BookValidators {
  import opened Common
  import opened RequestBody
  import opened BookModel

  /** The body paths the validators check. */
  datatype Field = Name | Authors | Isbn | Genre | Year | Rating

  /** The messages the chains can report: the required-field message given
      to `body`, the one given to `withMessage`, and the library default. */
  datatype Message = RequiredMsg(of: Field) | InvalidMsg(of: Field) | DefaultMsg

  datatype FieldError = FieldError(path: Field, msg: Message)

  /** The body of a create or update request. */
  datatype BookBody = BookBody(
    name: Option<Value>, authors: Option<Value>, isbn: Option<Value>,
    genre: Option<Value>, year: Option<Value>, rating: Option<Value>)

  /** `list.join(sep)` */
  function Join(parts: seq<string>, sep: string): (r: string)
    ensures |parts| == 1 ==> r == parts[0]
    ensures parts == [] ==> r == ""
  {
    if parts == [] then "" else if |parts| == 1 then parts[0] else parts[0] + sep + Join(parts[1..], sep)
  }

  /** Joining one more part adds the separator and the part at the end. */
  lemma {:induction false} JoinAppend(parts: seq<string>, x: string, sep: string)
    requires parts != []
    ensures Join(parts + [x], sep) == Join(parts, sep) + sep + x
    decreases |parts|
  {
    if |parts| > 1 {
      assert (parts + [x])[1..] == parts[1..] + [x];
      JoinAppend(parts[1..], x, sep);
    }
  }

  /** The genre message spells out the genre list, separated by ", ". */
  lemma GenreListMessage()
    ensures Text(InvalidMsg(Genre)) == "Жанр должен быть из списка: Фэнтези, Ужасы, Роман"
  {
    assert Join(["Фэнтези"], ", ") == "Фэнтези";
    JoinAppend(["Фэнтези"], "Ужасы", ", ");
    assert ["Фэнтези"] + ["Ужасы"] == ["Фэнтези", "Ужасы"];
    JoinAppend(["Фэнтези", "Ужасы"], "Роман", ", ");
    assert ["Фэнтези", "Ужасы"] + ["Роман"] == GenreList;
  }

  /** The rating message spells out the ratings 1 to 5, separated by ", ". */
  lemma RatingListMessage()
    ensures Text(InvalidMsg(Rating)) == "Рейтинг должен быть из списка: 1, 2, 3, 4, 5"
  {
    assert Decimal(1) == "1" && Decimal(2) == "2" && Decimal(3) == "3";
    assert Decimal(4) == "4" && Decimal(5) == "5";
    var ds := DecimalsOf(RatingList);
    assert ds == ["1", "2", "3", "4", "5"];
    assert Join(["5"], ", ") == "5";
    assert Join(["4", "5"], ", ") == "4, 5";
    assert Join(["3", "4", "5"], ", ") == "3, 4, 5";
    assert Join(["2", "3", "4", "5"], ", ") == "2, 3, 4, 5";
  }

  const MinYear: int := 1800

  /** The text of each message. */
  function Text(m: Message): string
  {
    match m
    case DefaultMsg => "Invalid value"
    case RequiredMsg(Name) => "Поле `Название` обязательно для заполнения"
    case RequiredMsg(Authors) => "Поле `Авторы` обязательно для заполнения"
    case RequiredMsg(Isbn) => "Поле `isbn` обязательно для заполнения"
    case RequiredMsg(Genre) => "Поле `Жанр` обязательно для заполнения"
    case RequiredMsg(Year) => "Поле `Год` обязательно для заполнения"
    case RequiredMsg(Rating) => "Поле `Рейтинг` обязательно для заполнения"
    case InvalidMsg(Name) => "Неверное значение для поля `Название`"
    case InvalidMsg(Authors) => "Неверное значение для поля `Авторы`"
    case InvalidMsg(Isbn) => "Неверное значение для поля `isbn`"
    case InvalidMsg(Genre) => "Жанр должен быть из списка: " + Join(GenreList, ", ")
    case InvalidMsg(Year) => "Неверное значение для поля `Год`"
    case InvalidMsg(Rating) => "Рейтинг должен быть из списка: " + Join(DecimalsOf(RatingList), ", ")
  }

  /** The checks after `notEmpty` in each field's chain. */
  predicate NameOk(b: BookBody) { IsString(b.name) }
  predicate AuthorsOk(b: BookBody) { IsString(b.authors) }
  predicate IsbnOk(b: BookBody) { IsString(b.isbn) }
  predicate GenreOk(b: BookBody) { IsIn(b.genre, GenreList) }
  predicate YearOk(b: BookBody) { IsIntAtLeast(b.year, MinYear) }
  predicate RatingOk(b: BookBody) { IsIn(b.rating, DecimalsOf(RatingList)) }

  /** `body(path, requiredMsg).notEmpty().<check>.withMessage(invalidMsg)` */
  function RequiredChain(path: Field, v: Option<Value>, requiredMsg: Message, check: bool, invalidMsg: Message): (r: seq<FieldError>)
    ensures r == [] <==> NotEmpty(v) && check
    ensures forall k :: 0 <= k < |r| ==> r[k].path == path
    ensures !NotEmpty(v) ==> FieldError(path, requiredMsg) in r
    ensures !check ==> FieldError(path, invalidMsg) in r
    ensures |r| == (if NotEmpty(v) then 0 else 1) + (if check then 0 else 1)
    ensures !NotEmpty(v) ==> r[0] == FieldError(path, requiredMsg)
    ensures !check ==> r[|r| - 1] == FieldError(path, invalidMsg)
    ensures forall k :: 0 <= k < |r| ==> r[k].msg == requiredMsg || r[k].msg == invalidMsg
  {
    (if NotEmpty(v) then [] else [FieldError(path, requiredMsg)])
      + (if check then [] else [FieldError(path, invalidMsg)])
  }

  /** `body(path).optional().notEmpty().<check>.withMessage(invalidMsg)` */
  function OptionalChain(path: Field, v: Option<Value>, check: bool, invalidMsg: Message): (r: seq<FieldError>)
    ensures r == [] <==> v.None? || (NotEmpty(v) && check)
    ensures forall k :: 0 <= k < |r| ==> r[k].path == path
    ensures v.Some? && !NotEmpty(v) ==> FieldError(path, DefaultMsg) in r
    ensures v.Some? && !check ==> FieldError(path, invalidMsg) in r
    ensures |r| == if v.None? then 0 else (if NotEmpty(v) then 0 else 1) + (if check then 0 else 1)
    ensures v.Some? && !NotEmpty(v) ==> r[0] == FieldError(path, DefaultMsg)
    ensures v.Some? && !check ==> r[|r| - 1] == FieldError(path, invalidMsg)
    ensures forall k :: 0 <= k < |r| ==> r[k].msg == DefaultMsg || r[k].msg == invalidMsg
  {
    if v.None? then [] else RequiredChain(path, v, DefaultMsg, check, invalidMsg)
  }

  /** createBookValidator: the errors, field by field in schema order. */
  function CreateBookErrors(b: BookBody): (r: seq<FieldError>)
    ensures r == [] <==>
      NotEmpty(b.name) && NameOk(b) && NotEmpty(b.authors) && AuthorsOk(b)
      && NotEmpty(b.isbn) && IsbnOk(b) && NotEmpty(b.genre) && GenreOk(b)
      && NotEmpty(b.year) && YearOk(b) && NotEmpty(b.rating) && RatingOk(b)
  {
    RequiredChain(Name, b.name, RequiredMsg(Name), NameOk(b), InvalidMsg(Name))
      + RequiredChain(Authors, b.authors, RequiredMsg(Authors), AuthorsOk(b), InvalidMsg(Authors))
      + RequiredChain(Isbn, b.isbn, RequiredMsg(Isbn), IsbnOk(b), InvalidMsg(Isbn))
      + RequiredChain(Genre, b.genre, RequiredMsg(Genre), GenreOk(b), InvalidMsg(Genre))
      + RequiredChain(Year, b.year, RequiredMsg(Year), YearOk(b), InvalidMsg(Year))
      + RequiredChain(Rating, b.rating, RequiredMsg(Rating), RatingOk(b), InvalidMsg(Rating))
  }

  /** A create body without a rating is reported as missing its rating. */
  lemma MissingRatingRequired(b: BookBody)
    requires b.rating.None?
    ensures FieldError(Rating, RequiredMsg(Rating)) in CreateBookErrors(b)
  {
    var all := CreateBookErrors(b);
    var tail := RequiredChain(Rating, b.rating, RequiredMsg(Rating), RatingOk(b), InvalidMsg(Rating));
    assert tail[0] == FieldError(Rating, RequiredMsg(Rating));
    assert all[|all| - |tail|..] == tail;
    assert all[|all| - |tail|] == tail[0];
  }

  /** updateBookValidator as written: the isbn chain carries the authors
      message. */
  function UpdateBookErrors(b: BookBody): (r: seq<FieldError>)
    ensures r == [] <==>
      (b.name.None? || (NotEmpty(b.name) && NameOk(b)))
      && (b.authors.None? || (NotEmpty(b.authors) && AuthorsOk(b)))
      && (b.isbn.None? || (NotEmpty(b.isbn) && IsbnOk(b)))
      && (b.genre.None? || (NotEmpty(b.genre) && GenreOk(b)))
      && (b.year.None? || (NotEmpty(b.year) && YearOk(b)))
      && (b.rating.None? || (NotEmpty(b.rating) && RatingOk(b)))
  {
    OptionalChain(Name, b.name, NameOk(b), InvalidMsg(Name))
      + OptionalChain(Authors, b.authors, AuthorsOk(b), InvalidMsg(Authors))
      + OptionalChain(Isbn, b.isbn, IsbnOk(b), InvalidMsg(Authors))
      + OptionalChain(Genre, b.genre, GenreOk(b), InvalidMsg(Genre))
      + OptionalChain(Year, b.year, YearOk(b), InvalidMsg(Year))
      + OptionalChain(Rating, b.rating, RatingOk(b), InvalidMsg(Rating))
  }

  /** updateBookValidator with the isbn chain reporting the isbn message. */
  function UpdateBookErrorsFixed(b: BookBody): (r: seq<FieldError>)
    ensures r == [] <==> UpdateBookErrors(b) == []
  {
    OptionalChain(Name, b.name, NameOk(b), InvalidMsg(Name))
      + OptionalChain(Authors, b.authors, AuthorsOk(b), InvalidMsg(Authors))
      + OptionalChain(Isbn, b.isbn, IsbnOk(b), InvalidMsg(Isbn))
      + OptionalChain(Genre, b.genre, GenreOk(b), InvalidMsg(Genre))
      + OptionalChain(Year, b.year, YearOk(b), InvalidMsg(Year))
      + OptionalChain(Rating, b.rating, RatingOk(b), InvalidMsg(Rating))
  }

  /** A body that fills every field with something non-empty: create and
      update then check the same things. */
  predicate AllFilled(b: BookBody)
  {
    NotEmpty(b.name) && NotEmpty(b.authors) && NotEmpty(b.isbn)
    && NotEmpty(b.genre) && NotEmpty(b.year) && NotEmpty(b.rating)
  }

  /** On a filled-in body the corrected update validator reports exactly
      what the create validator reports. */
  lemma FixedUpdateAgreesWithCreate(b: BookBody)
    requires AllFilled(b)
    ensures UpdateBookErrorsFixed(b) == CreateBookErrors(b)
  {
  }

  /** A filled-in body whose only failing check is the isbn one: create
      reports the isbn message, update as written the authors message. */
  lemma OnlyIsbnFails(b: BookBody)
    requires AllFilled(b)
    requires NameOk(b) && AuthorsOk(b) && !IsbnOk(b) && GenreOk(b) && YearOk(b) && RatingOk(b)
    ensures CreateBookErrors(b) == [FieldError(Isbn, InvalidMsg(Isbn))]
    ensures UpdateBookErrors(b) == [FieldError(Isbn, InvalidMsg(Authors))]
  {
    var c := RequiredChain(Isbn, b.isbn, RequiredMsg(Isbn), IsbnOk(b), InvalidMsg(Isbn));
    assert c == [FieldError(Isbn, InvalidMsg(Isbn))];
    var u := OptionalChain(Isbn, b.isbn, IsbnOk(b), InvalidMsg(Authors));
    assert u == [FieldError(Isbn, InvalidMsg(Authors))];
  }

  /** As written, a filled-in body whose isbn is not a string gets a
      different report from update than from create: the isbn error is
      reported with the authors message. */
  lemma UpdateIsbnMessageDiffers()
    ensures var b := BookBody(Some(JStr("Solaris")), Some(JStr("Lem")), Some(JNum(5)),
                              Some(JStr("Роман")), Some(JNum(1961)), Some(JNum(4)));
      AllFilled(b)
      && FieldError(Isbn, InvalidMsg(Authors)) in UpdateBookErrors(b)
      && FieldError(Isbn, InvalidMsg(Authors)) !in CreateBookErrors(b)
      && UpdateBookErrors(b) != CreateBookErrors(b)
  {
    var b := BookBody(Some(JStr("Solaris")), Some(JStr("Lem")), Some(JNum(5)),
                      Some(JStr("Роман")), Some(JNum(1961)), Some(JNum(4)));
    assert Decimal(5) == "5";
    assert NotEmpty(b.isbn) && !IsbnOk(b);
    assert NotEmpty(b.year) && NotEmpty(b.rating);
    NumberIsIn(4, RatingList);
    assert RatingOk(b);
    NumberIsIntAtLeast(1961, MinYear);
    assert YearOk(b);
    assert GenreOk(b);
    OnlyIsbnFails(b);
  }

  /** A required field that is missing is reported twice: as required and
      as invalid. */
  lemma MissingNameReportedTwice(b: BookBody)
    requires b.name.None?
    ensures FieldError(Name, RequiredMsg(Name)) in CreateBookErrors(b)
    ensures FieldError(Name, InvalidMsg(Name)) in CreateBookErrors(b)
  {
    var r := CreateBookErrors(b);
    var n := RequiredChain(Name, b.name, RequiredMsg(Name), NameOk(b), InvalidMsg(Name));
    assert r[..|n|] == n;
  }

  /** An update body with no fields passes. */
  lemma EmptyUpdateAccepted()
    ensures UpdateBookErrors(BookBody(None, None, None, None, None, None)) == []
  {
  }

  /** A number year passes exactly from 1800 on. */
  lemma YearBoundary(n: int)
    ensures YearOk(BookBody(None, None, None, None, Some(JNum(n)), None)) <==> n >= 1800
  {
    NumberIsIntAtLeast(n, MinYear);
  }

  /** A number rating passes exactly when it is 1 to 5. */
  lemma RatingRange(n: int)
    ensures RatingOk(BookBody(None, None, None, None, None, Some(JNum(n)))) <==> 1 <= n <= 5
  {
    NumberIsIn(n, RatingList);
  }

  // -------------------------------------------------------------------
  // From an accepted body to the create payload

  /** Mongoose's cast of a Number path, for the integer forms: a number,
      a string that reads as an integer, a boolean as 1 or 0. */
  function CastInt(v: Option<Value>): (r: Option<int>)
    ensures v.Some? && v.value.JNum? ==> r == Some(v.value.n)
    ensures v.None? || v.value.JNull? ==> r.None?
  {
    match v
    case Some(JNum(n)) => Some(n)
    case Some(JStr(s)) => ParseInt(s)
    case Some(JBool(x)) => Some(if x then 1 else 0)
    case _ => None
  }

  /** The payload the controller hands to `Book.create`. */
  function CreateInput(b: BookBody): BookInput
  {
    BookInput(StringCast(b.name), StringCast(b.authors), StringCast(b.isbn), StringCast(b.genre),
              CastInt(b.year), CastInt(b.rating), None, None, None, None)
  }

  lemma IntStringsOfRatings(s: string)
    requires s in DecimalsOf(RatingList)
    ensures ParseInt(s).Some? && ParseInt(s).value in RatingList
  {
    var k :| 0 <= k < |RatingList| && s == Decimal(RatingList[k]);
    DecimalRoundTrip(RatingList[k]);
  }

  /** Only a string can be one of the genres: the string form of a
      number starts with a digit or a minus sign, and that of a boolean is
      `true` or `false`. */
  lemma GenreIsString(v: Option<Value>)
    requires IsIn(v, GenreList)
    ensures v.Some? && v.value.JStr?
  {
    if v.Some? && v.value.JNum? {
      DecimalHead(v.value.n);
    }
  }

  /** A body the create validator accepts makes a book that passes Mongoose
      validation: the request validator is at least as strict as the
      model. */
  lemma AcceptedCreateIsValid(b: BookBody)
    requires CreateBookErrors(b) == []
    ensures NewBook(CreateInput(b)).Ok?
  {
    var input := CreateInput(b);
    GenreIsString(b.genre);
    assert input.rating.Some? && input.rating.value in RatingList by {
      IntStringsOfRatings(ToStr(b.rating));
      match b.rating.value
      case JNum(n) => DecimalRoundTrip(n);
      case JStr(s) =>
      case JBool(x) =>
      case JNull =>
    }
    assert input.year.Some? by {
      match b.year.value
      case JNum(n) =>
      case JStr(s) =>
      case JBool(x) =>
      case JNull =>
    }
  }
}
