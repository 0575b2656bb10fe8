/** The book form check of frontend/src/Books.tsx: one message per field,
    empty when the field passes, and the save handlers refuse to send the
    row while any message is non-empty. As written, the rating message is
    decided by the year field. */
module BookForm {
  import opened Common
  import opened RequestBody
  import BookValidators

  /** The values of the create or edit row. */
  datatype FormBook = FormBook(
    name: Option<Value>, authors: Option<Value>, isbn: Option<Value>,
    genre: Option<Value>, year: Option<Value>, rating: Option<Value>)

  /** The messages `validateBook` returns, "" for a field that passes. */
  datatype BookErrors = BookErrors(
    name: string, authors: string, isbn: string, genre: string, year: string, rating: string)

  const NameMissing: string := "Название книги является обязательным полем"
  const AuthorsMissing: string := "Авторы является обязательным полем"
  const IsbnMissing: string := "ISBN является обязательным полем"
  const GenreMissing: string := "Жанр является обязательным полем"
  const YearMissing: string := "Год издания является обязательным полем"
  const RatingMissing: string := "Рейтинг является обязательным полем"

  /** `Object.values(errors).some((error) => error)` */
  predicate Blocked(e: BookErrors)
  {
    e.name != "" || e.authors != "" || e.isbn != "" || e.genre != "" || e.year != "" || e.rating != ""
  }

  /** validateBook as written: the rating check reads `book.year`. */
  function ValidateBook(b: FormBook): (e: BookErrors)
    ensures e.name == "" <==> HasLength(b.name)
    ensures e.authors == "" <==> HasLength(b.authors)
    ensures e.isbn == "" <==> HasLength(b.isbn)
    ensures e.genre == "" <==> HasLength(b.genre)
    ensures e.year == "" <==> Truthy(b.year)
    ensures e.rating == "" <==> Truthy(b.year)
    ensures e.name != "" ==> e.name == NameMissing
    ensures e.authors != "" ==> e.authors == AuthorsMissing
    ensures e.isbn != "" ==> e.isbn == IsbnMissing
    ensures e.genre != "" ==> e.genre == GenreMissing
    ensures e.year != "" ==> e.year == YearMissing
    ensures e.rating != "" ==> e.rating == RatingMissing
  {
    BookErrors(
      if HasLength(b.name) then "" else NameMissing,
      if HasLength(b.authors) then "" else AuthorsMissing,
      if HasLength(b.isbn) then "" else IsbnMissing,
      if HasLength(b.genre) then "" else GenreMissing,
      if Truthy(b.year) then "" else YearMissing,
      if Truthy(b.year) then "" else RatingMissing)
  }

  /** validateBook with the rating check reading `book.rating`. */
  function ValidateBookFixed(b: FormBook): (e: BookErrors)
    ensures e.name == ValidateBook(b).name && e.authors == ValidateBook(b).authors
    ensures e.isbn == ValidateBook(b).isbn && e.genre == ValidateBook(b).genre
    ensures e.year == ValidateBook(b).year
    ensures e.rating == "" <==> Truthy(b.rating)
    ensures e.rating != "" ==> e.rating == RatingMissing
  {
    BookErrors(
      if HasLength(b.name) then "" else NameMissing,
      if HasLength(b.authors) then "" else AuthorsMissing,
      if HasLength(b.isbn) then "" else IsbnMissing,
      if HasLength(b.genre) then "" else GenreMissing,
      if Truthy(b.year) then "" else YearMissing,
      if Truthy(b.rating) then "" else RatingMissing)
  }

  /** The corrected check lets a row through exactly when every field is
      filled in. */
  lemma FixedBlocksUnlessFilled(b: FormBook)
    ensures !Blocked(ValidateBookFixed(b)) <==>
      HasLength(b.name) && HasLength(b.authors) && HasLength(b.isbn) && HasLength(b.genre)
      && Truthy(b.year) && Truthy(b.rating)
  {
  }

  /** As written, a row without a rating passes the check. */
  lemma MissingRatingNotCaught()
    ensures var b := FormBook(Some(JStr("Solaris")), Some(JStr("Lem")), Some(JStr("978-5")),
                              Some(JStr("Роман")), Some(JNum(1961)), None);
      !Blocked(ValidateBook(b)) && Blocked(ValidateBookFixed(b))
  {
  }

  /** As written, a row with a rating but no year is reported as missing
      its rating too. */
  lemma MissingYearBlamesRating(b: FormBook)
    requires !Truthy(b.year) && Truthy(b.rating)
    ensures ValidateBook(b).rating == RatingMissing
    ensures ValidateBookFixed(b).rating == ""
  {
  }

  /** The request body the create mutation sends for a row. */
  function Body(b: FormBook): BookValidators.BookBody
  {
    BookValidators.BookBody(b.name, b.authors, b.isbn, b.genre, b.year, b.rating)
  }

  /** A field the form finds truthy is not empty for the server. */
  lemma TruthyIsNotEmpty(v: Option<Value>)
    requires Truthy(v)
    ensures NotEmpty(v)
  {
    if v.Some? && v.value.JNum? {
      DecimalHead(v.value.n);
    }
  }

  /** A row the corrected check lets through gets no "required" error from
      the server's create validator. */
  lemma FixedPassMeansPresent(b: FormBook)
    requires !Blocked(ValidateBookFixed(b))
    ensures forall k :: 0 <= k < |BookValidators.CreateBookErrors(Body(b))| ==>
      !BookValidators.CreateBookErrors(Body(b))[k].msg.RequiredMsg?
  {
    TruthyIsNotEmpty(b.year);
    TruthyIsNotEmpty(b.rating);
  }

  /** As written, a row the check lets through can still be missing its
      rating, which the server reports as required. */
  lemma AsWrittenPassCanMissRating()
    ensures var b := FormBook(Some(JStr("Solaris")), Some(JStr("Lem")), Some(JStr("978-5")),
                              Some(JStr("Роман")), Some(JNum(1961)), None);
      !Blocked(ValidateBook(b))
      && BookValidators.FieldError(BookValidators.Rating, BookValidators.RequiredMsg(BookValidators.Rating))
         in BookValidators.CreateBookErrors(Body(b))
  {
    var b := FormBook(Some(JStr("Solaris")), Some(JStr("Lem")), Some(JStr("978-5")),
                      Some(JStr("Роман")), Some(JNum(1961)), None);
    BookValidators.MissingRatingRequired(Body(b));
  }
}
