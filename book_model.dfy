/** The book record of app/models/book.js: its fields, enums and defaults,
    the validation Mongoose applies when a book is created or saved, and the
    unique ISBN index. One record is one physical copy. */
module BookModel {
  import opened Common

  type UserId = Id
  type BookId = Id

  /** The genre list; the constant module is not part of this model, the
      front end offers exactly these three. */
  const GenreList: seq<string> := ["Фэнтези", "Ужасы", "Роман"]

  /** The rating list, 1 to 5. */
  const RatingList: seq<int> := [1, 2, 3, 4, 5]

  const DefaultRating: int := 1

  /** One lending cycle; `returnedDate` is unset while the copy is out. */
  datatype HistoryEntry = HistoryEntry(user: UserId, borrowedDate: Time, returnedDate: Option<Time>)

  datatype Book = Book(
    name: string,
    authors: string,
    isbn: string,
    genre: string,
    year: int,
    rating: int,
    borrowedBy: Option<UserId>,
    dueDate: Option<Time>,
    borrowHistory: seq<HistoryEntry>,
    isDeleted: bool)

  /** The payload handed to `Book.create`: any field may be missing. */
  datatype BookInput = BookInput(
    name: Option<string>,
    authors: Option<string>,
    isbn: Option<string>,
    genre: Option<string>,
    year: Option<int>,
    rating: Option<int>,
    borrowedBy: Option<UserId>,
    dueDate: Option<Time>,
    borrowHistory: Option<seq<HistoryEntry>>,
    isDeleted: Option<bool>)

  /** Mongoose's `required` check for a String path: present and non-empty. */
  predicate RequiredString(s: Option<string>)
  {
    s.Some? && s.value != ""
  }

  /** What Mongoose validation demands of a stored book: the required
      strings are non-empty and genre and rating are in their lists. */
  predicate SchemaValid(b: Book)
  {
    b.name != "" && b.authors != "" && b.isbn != ""
    && b.genre in GenreList
    && b.rating in RatingList
  }

  /** The document `Book.create` builds and validates from a payload. */
  function NewBook(input: BookInput): (r: Result<Book>)
    ensures r.Ok? <==>
      RequiredString(input.name) && RequiredString(input.authors) && RequiredString(input.isbn)
      && input.genre.Some? && input.genre.value in GenreList
      && input.year.Some?
      && (input.rating.None? || input.rating.value in RatingList)
    ensures r.Err? ==> r.error == ValidationFailed
    ensures r.Ok? ==> SchemaValid(r.value)
    ensures r.Ok? ==>
      && Some(r.value.name) == input.name && Some(r.value.authors) == input.authors
      && Some(r.value.isbn) == input.isbn && Some(r.value.genre) == input.genre
      && Some(r.value.year) == input.year
      && r.value.rating == (if input.rating.Some? then input.rating.value else DefaultRating)
      && r.value.borrowedBy == input.borrowedBy && r.value.dueDate == input.dueDate
      && r.value.borrowHistory == (if input.borrowHistory.Some? then input.borrowHistory.value else [])
      && r.value.isDeleted == (input.isDeleted == Some(true))
  {
    if !(RequiredString(input.name) && RequiredString(input.authors) && RequiredString(input.isbn)
         && input.genre.Some? && input.year.Some?) then
      Err(ValidationFailed)
    else
      var b := Book(
        input.name.value, input.authors.value, input.isbn.value, input.genre.value, input.year.value,
        match input.rating case Some(r) => r case None => DefaultRating,
        input.borrowedBy, input.dueDate,
        match input.borrowHistory case Some(h) => h case None => [],
        match input.isDeleted case Some(d) => d case None => false);
      if SchemaValid(b) then Ok(b) else Err(ValidationFailed)
  }

  /** Some book of the store other than `except` already holds the ISBN. */
  predicate IsbnTaken(books: map<BookId, Book>, isbn: string, except: Option<BookId>)
  {
    exists id :: id in books && Some(id) != except && books[id].isbn == isbn
  }

  /** The unique index on isbn. */
  predicate IsbnsUnique(books: map<BookId, Book>)
  {
    forall i, j :: i in books && j in books && i != j ==> books[i].isbn != books[j].isbn
  }

  /** A payload without lending fields gives an available book with an empty
      history, rated 1 unless a rating is given, and not archived unless
      the flag is given. */
  lemma NewBookIsAvailable(input: BookInput)
    requires NewBook(input).Ok?
    requires input.borrowedBy.None? && input.dueDate.None? && input.borrowHistory.None?
    requires input.isDeleted.None?
    ensures var b := NewBook(input).value;
      b.borrowedBy.None? && b.dueDate.None? && b.borrowHistory == [] && !b.isDeleted
  {
  }

  /** Leaving out any one of the required fields makes create fail. */
  lemma MissingRequiredFieldFails(input: BookInput)
    requires input.name.None? || input.authors.None? || input.isbn.None?
          || input.genre.None? || input.year.None?
    ensures NewBook(input) == Err(ValidationFailed)
  {
  }

  /** A genre outside the list, or a rating outside 1..5, makes create fail. */
  lemma EnumViolationFails(input: BookInput)
    requires (input.genre.Some? && input.genre.value !in GenreList)
          || (input.rating.Some? && input.rating.value !in RatingList)
    ensures NewBook(input) == Err(ValidationFailed)
  {
  }
}
