/** The catalogue and lending engine of app/services/books.js: a store of
    books keyed by id, the mutating operations (add, update, archive,
    borrow, return) as methods of a class, and the queries (list, get,
    overdue, history) as functions of the stored map. */
module BookService {
  import opened Common
  import opened BookModel
  import opened Lending
  import UserModel
  import MemberStore

  type Users = map<Id, UserModel.Member>

  /** The store invariant: ids below the counter, every book schema-valid,
      ISBNs unique. */
  predicate StoreValid(books: map<BookId, Book>, nextId: nat)
  {
    (forall id :: id in books ==> id < nextId)
    && (forall id :: id in books ==> SchemaValid(books[id]))
    && IsbnsUnique(books)
  }

  /** Every stored book satisfies the lending invariant. */
  predicate AllConsistent(books: map<BookId, Book>)
  {
    forall id :: id in books ==> LendingConsistent(books[id])
  }

  // ---------------------------------------------------------------------
  // The store transitions, as functions of the stored map

  /** `Book.create`: validation, then the unique ISBN index; the new book
      takes the next id. */
  function Add(books: map<BookId, Book>, nextId: nat, input: BookInput): (r: Result<map<BookId, Book>>)
    ensures NewBook(input).Err? ==> r == Err(ValidationFailed)
    ensures NewBook(input).Ok? && IsbnTaken(books, input.isbn.value, None) ==> r == Err(DuplicateKey)
    ensures r.Ok? <==> NewBook(input).Ok? && !IsbnTaken(books, input.isbn.value, None)
    ensures r.Ok? ==> r.value == books[nextId := NewBook(input).value]
    ensures r.Ok? && StoreValid(books, nextId) ==> StoreValid(r.value, nextId + 1)
  {
    match NewBook(input)
    case Err(e) => Err(e)
    case Ok(b) =>
      if IsbnTaken(books, b.isbn, None) then Err(DuplicateKey)
      else
        var r := books[nextId := b];
        assert StoreValid(books, nextId) ==> IsbnsUnique(r) by {
          if StoreValid(books, nextId) {
            forall i, j | i in r && j in r && i != j ensures r[i].isbn != r[j].isbn {
              if i == nextId {
                assert !(j in books && Some(j) != None && books[j].isbn == b.isbn);
              } else if j == nextId {
                assert !(i in books && Some(i) != None && books[i].isbn == b.isbn);
              }
            }
          }
        }
        Ok(r)
  }

  /** `book.save()` after an update: validation, then the unique index. */
  function Save(books: map<BookId, Book>, id: BookId, b: Book): (r: Result<map<BookId, Book>>)
    ensures r.Ok? <==> SchemaValid(b) && !IsbnTaken(books, b.isbn, Some(id))
    ensures r.Err? ==> r.error == (if SchemaValid(b) then DuplicateKey else ValidationFailed)
    ensures r.Ok? ==> r.value == books[id := b]
  {
    if !SchemaValid(b) then Err(ValidationFailed)
    else if IsbnTaken(books, b.isbn, Some(id)) then Err(DuplicateKey)
    else Ok(books[id := b])
  }

  /** A successful save keeps the store invariant. */
  lemma SaveKeepsValid(books: map<BookId, Book>, n: nat, id: BookId, b: Book)
    requires StoreValid(books, n) && id in books
    requires Save(books, id, b).Ok?
    ensures StoreValid(Save(books, id, b).value, n)
  {
    var r := books[id := b];
    forall i, j | i in r && j in r && i != j ensures r[i].isbn != r[j].isbn {
      if i == id {
        assert !(j in books && Some(j) != Some(id) && books[j].isbn == b.isbn);
      } else if j == id {
        assert !(i in books && Some(i) != Some(id) && books[i].isbn == b.isbn);
      }
    }
  }

  /** updateBook as a function of the store. */
  function Update(books: map<BookId, Book>, id: BookId, patch: seq<BookPatchEntry>): (r: Result<map<BookId, Book>>)
    ensures id !in books ==> r == Err(NotFound(MissingBook))
    ensures r.Ok? ==> id in books && r.value == books[id := ApplyPatch(books[id], patch)]
    ensures id in books ==> var b := ApplyPatch(books[id], patch);
      (r.Ok? <==> SchemaValid(b) && !IsbnTaken(books, b.isbn, Some(id)))
      && (r.Err? ==> r.error == (if SchemaValid(b) then DuplicateKey else ValidationFailed))
  {
    if id !in books then Err(NotFound(MissingBook)) else Save(books, id, ApplyPatch(books[id], patch))
  }

  /** borrowBook as a function of the store: the book is looked up first,
      then the user (by id only, archived or not); an archived book can be
      borrowed too. */
  function Lend(books: map<BookId, Book>, users: Users, bookId: BookId, userId: Id, now: Time): (r: Result<map<BookId, Book>>)
    ensures bookId !in books ==> r == Err(NotFound(MissingBook))
    ensures bookId in books && userId !in users ==> r == Err(NotFound(MissingUser))
    ensures r.Ok? <==> bookId in books && userId in users
    ensures r.Ok? ==> r.value.Keys == books.Keys
    ensures r.Ok? ==> r.value[bookId] == Borrow(books[bookId], userId, now)
    ensures r.Ok? ==> forall id :: id in books && id != bookId ==> r.value[id] == books[id]
  {
    if bookId !in books then Err(NotFound(MissingBook))
    else if MemberStore.GetUser(users, userId).None? then Err(NotFound(MissingUser))
    else Ok(books[bookId := Borrow(books[bookId], userId, now)])
  }

  /** returnBook as a function of the store. */
  function Restore(books: map<BookId, Book>, bookId: BookId, now: Time): (r: Result<map<BookId, Book>>)
    ensures r.Ok? <==> bookId in books
    ensures r.Err? ==> r.error == NotFound(MissingBook)
    ensures r.Ok? ==> r.value.Keys == books.Keys
    ensures r.Ok? ==> r.value[bookId] == Return(books[bookId], now)
    ensures r.Ok? ==> forall id :: id in books && id != bookId ==> r.value[id] == books[id]
  {
    if bookId !in books then Err(NotFound(MissingBook))
    else Ok(books[bookId := Return(books[bookId], now)])
  }

  /** Borrowing, returning and archiving keep the store invariant and, from
      a store where every book satisfies the lending invariant, keep that
      too. */
  lemma LendingKeepsStore(books: map<BookId, Book>, n: nat, users: Users, bookId: BookId, userId: Id, t: Time)
    requires StoreValid(books, n)
    ensures Lend(books, users, bookId, userId, t).Ok? ==>
      StoreValid(Lend(books, users, bookId, userId, t).value, n)
    ensures Restore(books, bookId, t).Ok? ==> StoreValid(Restore(books, bookId, t).value, n)
    ensures AllConsistent(books) && Lend(books, users, bookId, userId, t).Ok? ==>
      AllConsistent(Lend(books, users, bookId, userId, t).value)
    ensures AllConsistent(books) && Restore(books, bookId, t).Ok? ==>
      AllConsistent(Restore(books, bookId, t).value)
    ensures bookId in books ==> StoreValid(books[bookId := Archive(books[bookId])], n)
    ensures AllConsistent(books) && bookId in books ==>
      AllConsistent(books[bookId := Archive(books[bookId])])
  {
    if bookId in books {
      var b := books[bookId];
      TransitionsKeepSchema(b, userId, t);
      var lent := books[bookId := Borrow(b, userId, t)];
      assert IsbnsUnique(lent) by {
        forall i, j | i in lent && j in lent && i != j ensures lent[i].isbn != lent[j].isbn {
          assert lent[i].isbn == books[i].isbn && lent[j].isbn == books[j].isbn;
        }
      }
      var back := books[bookId := Return(b, t)];
      assert IsbnsUnique(back) by {
        forall i, j | i in back && j in back && i != j ensures back[i].isbn != back[j].isbn {
          assert back[i].isbn == books[i].isbn && back[j].isbn == books[j].isbn;
        }
      }
      var archived := books[bookId := Archive(b)];
      assert IsbnsUnique(archived) by {
        forall i, j | i in archived && j in archived && i != j ensures archived[i].isbn != archived[j].isbn {
          assert archived[i].isbn == books[i].isbn && archived[j].isbn == books[j].isbn;
        }
      }
    }
  }

  // ---------------------------------------------------------------------
  // Queries

  /** A book as the list and lookup queries return it, `-borrowHistory`,
      with `borrowedBy` of type B: the member id as stored, or what
      `populate` puts in its place. */
  datatype BookView<B> = BookView(
    id: BookId, name: string, authors: string, isbn: string, genre: string, year: int,
    rating: int, borrowedBy: B, dueDate: Option<Time>, isDeleted: bool)

  /** The stored book a view came from, given the history the view leaves
      out. */
  function WithHistory(v: BookView<Option<Id>>, h: seq<HistoryEntry>): Book
  {
    Book(v.name, v.authors, v.isbn, v.genre, v.year, v.rating, v.borrowedBy, v.dueDate, h, v.isDeleted)
  }

  /** The view drops the history and nothing else: putting it back gives
      the stored book. */
  function View(id: BookId, b: Book): (v: BookView<Option<Id>>)
    ensures v.id == id
    ensures WithHistory(v, b.borrowHistory) == b
    ensures forall h :: WithHistory(v, h) == b.(borrowHistory := h)
  {
    BookView(id, b.name, b.authors, b.isbn, b.genre, b.year, b.rating, b.borrowedBy, b.dueDate, b.isDeleted)
  }

  /** `populate("borrowedBy", ...)`: the reference is replaced by `p`, every
      other field is kept. */
  function Populated<B>(v: BookView<Option<Id>>, p: B): (r: BookView<B>)
    ensures r.borrowedBy == p
    ensures r.id == v.id && r.name == v.name && r.authors == v.authors && r.isbn == v.isbn
    ensures r.genre == v.genre && r.year == v.year && r.rating == v.rating
    ensures r.dueDate == v.dueDate && r.isDeleted == v.isDeleted
  {
    BookView(v.id, v.name, v.authors, v.isbn, v.genre, v.year, v.rating, p, v.dueDate, v.isDeleted)
  }

  /** `populate`: the referenced member document, its `_id` included; a
      reference to a member that no longer resolves reads as null. */
  function Resolve(users: Users, ref: Option<Id>): (r: Option<Doc<UserModel.Member>>)
    ensures r.Some? <==> ref.Some? && ref.value in users
    ensures r.Some? ==> r.value.id == ref.value && r.value.rec == users[ref.value]
  {
    if ref.Some? && ref.value in users then Some(Doc(ref.value, users[ref.value])) else None
  }

  /** An equality filter as handed to `Book.find(params)`. */
  datatype BookFilter = BookFilter(
    name: Option<string>, authors: Option<string>, isbn: Option<string>, genre: Option<string>,
    year: Option<int>, rating: Option<int>, isDeleted: Option<bool>)

  predicate Matches(b: Book, f: BookFilter)
  {
    (f.name.None? || f.name.value == b.name)
    && (f.authors.None? || f.authors.value == b.authors)
    && (f.isbn.None? || f.isbn.value == b.isbn)
    && (f.genre.None? || f.genre.value == b.genre)
    && (f.year.None? || f.year.value == b.year)
    && (f.rating.None? || f.rating.value == b.rating)
    && (f.isDeleted.None? || f.isDeleted.value == b.isDeleted)
  }

  /** A listed book: its borrower populated as `"name email -_id"`. Members
      have no `name`, so the borrower is its email, or null when the
      reference does not resolve. */
  type ListedBook = BookView<Option<string>>

  /** The populated `borrowedBy` of a listed book. */
  function BorrowerEmail(users: Users, b: Book): (r: Option<string>)
    ensures r.Some? <==> b.borrowedBy.Some? && b.borrowedBy.value in users
    ensures r.Some? ==> r.value == users[b.borrowedBy.value].email
  {
    var u := Resolve(users, b.borrowedBy);
    if u.Some? then Some(u.value.rec.email) else None
  }

  function Listing(books: map<BookId, Book>, users: Users, ids: seq<BookId>): (r: seq<ListedBook>)
    requires forall i :: 0 <= i < |ids| ==> ids[i] in books
    ensures |r| == |ids|
    ensures forall k :: 0 <= k < |ids| ==>
      r[k] == Populated(View(ids[k], books[ids[k]]), BorrowerEmail(users, books[ids[k]]))
  {
    if ids == [] then []
    else
      [Populated(View(ids[0], books[ids[0]]), BorrowerEmail(users, books[ids[0]]))]
        + Listing(books, users, ids[1..])
  }

  /** getBooks(params): every book matching the filter, in store order,
      archived ones included unless the filter excludes them. A book whose
      borrower no longer resolves is listed with a null borrower. */
  function GetBooks(books: map<BookId, Book>, n: nat, users: Users, params: BookFilter): (r: seq<ListedBook>)
    ensures forall k :: 0 <= k < |r| ==>
      r[k].id in books && Matches(books[r[k].id], params)
      && r[k] == Populated(View(r[k].id, books[r[k].id]), BorrowerEmail(users, books[r[k].id]))
    ensures forall k :: 0 <= k < |r| ==>
      var b := books[r[k].id];
      (r[k].borrowedBy.Some? <==> b.borrowedBy.Some? && b.borrowedBy.value in users)
      && (r[k].borrowedBy.Some? ==> r[k].borrowedBy.value == users[b.borrowedBy.value].email)
    ensures forall id :: id in books && id < n && Matches(books[id], params) ==>
      exists k :: 0 <= k < |r| && r[k].id == id
    ensures forall k, l :: 0 <= k < l < |r| ==> r[k].id < r[l].id
  {
    var ids := Select(books, n, b => Matches(b, params));
    var r := Listing(books, users, ids);
    assert forall id :: id in ids ==> exists k :: 0 <= k < |r| && r[k].id == id;
    r
  }

  /** getBook(id): the book without its history, or null. */
  function GetBook(books: map<BookId, Book>, id: BookId): (r: Option<BookView<Option<Id>>>)
    ensures r.Some? <==> id in books
    ensures r.Some? ==> r.value == View(id, books[id])
  {
    if id in books then Some(View(id, books[id])) else None
  }

  /** An overdue book with its borrower fully populated, `_id` included, or
      null. */
  type OverdueBook = BookView<Option<Doc<UserModel.Member>>>

  function OverdueListing(books: map<BookId, Book>, users: Users, ids: seq<BookId>): (r: seq<OverdueBook>)
    requires forall i :: 0 <= i < |ids| ==> ids[i] in books
    ensures |r| == |ids|
    ensures forall k :: 0 <= k < |ids| ==>
      r[k] == Populated(View(ids[k], books[ids[k]]), Resolve(users, books[ids[k]].borrowedBy))
  {
    if ids == [] then []
    else
      [Populated(View(ids[0], books[ids[0]]), Resolve(users, books[ids[0]].borrowedBy))]
        + OverdueListing(books, users, ids[1..])
  }

  /** getOverdueBooks at time `now`: exactly the books whose due date is
      strictly before now, in store order; archived books are not
      excluded. */
  function GetOverdueBooks(books: map<BookId, Book>, n: nat, users: Users, now: Time): (r: seq<OverdueBook>)
    ensures forall k :: 0 <= k < |r| ==>
      r[k].id in books && IsOverdue(books[r[k].id], now)
      && r[k] == Populated(View(r[k].id, books[r[k].id]), Resolve(users, books[r[k].id].borrowedBy))
    ensures forall id :: id in books && id < n && IsOverdue(books[id], now) ==>
      exists k :: 0 <= k < |r| && r[k].id == id
    ensures forall k, l :: 0 <= k < l < |r| ==> r[k].id < r[l].id
  {
    var ids := Select(books, n, b => IsOverdue(b, now));
    var r := OverdueListing(books, users, ids);
    assert forall id :: id in ids ==> exists k :: 0 <= k < |r| && r[k].id == id;
    r
  }

  /** A history entry with its member populated as `"name email"`: the id
      and the email. */
  datatype Contact = Contact(id: Id, email: string)
  datatype ResolvedEntry = ResolvedEntry(user: Option<Contact>, borrowedDate: Time, returnedDate: Option<Time>)
  datatype BookHistory = BookHistory(book: Book, entries: seq<ResolvedEntry>)

  function ResolveEntry(users: Users, e: HistoryEntry): (r: ResolvedEntry)
    ensures r.borrowedDate == e.borrowedDate && r.returnedDate == e.returnedDate
    ensures r.user.Some? <==> e.user in users
    ensures r.user.Some? ==> r.user.value == Contact(e.user, users[e.user].email)
  {
    ResolvedEntry(if e.user in users then Some(Contact(e.user, users[e.user].email)) else None,
                  e.borrowedDate, e.returnedDate)
  }

  function ResolveHistory(users: Users, h: seq<HistoryEntry>): (r: seq<ResolvedEntry>)
    ensures |r| == |h|
    ensures forall k :: 0 <= k < |h| ==> r[k] == ResolveEntry(users, h[k])
  {
    if h == [] then [] else [ResolveEntry(users, h[0])] + ResolveHistory(users, h[1..])
  }

  /** getBookHistory(id): NotFound, or the whole book with every entry's
      member resolved, in history order. */
  function GetBookHistory(books: map<BookId, Book>, users: Users, id: BookId): (r: Result<BookHistory>)
    ensures r.Err? <==> id !in books
    ensures r.Err? ==> r.error == NotFound(MissingBook)
    ensures r.Ok? ==> r.value.book == books[id] && |r.value.entries| == |books[id].borrowHistory|
    ensures r.Ok? ==> forall k :: 0 <= k < |r.value.entries| ==>
      r.value.entries[k].borrowedDate == books[id].borrowHistory[k].borrowedDate
      && r.value.entries[k].returnedDate == books[id].borrowHistory[k].returnedDate
    ensures r.Ok? ==> forall k :: 0 <= k < |r.value.entries| ==>
      var u := books[id].borrowHistory[k].user;
      r.value.entries[k].user == (if u in users then Some(Contact(u, users[u].email)) else None)
  {
    if id !in books then Err(NotFound(MissingBook))
    else Ok(BookHistory(books[id], ResolveHistory(users, books[id].borrowHistory)))
  }

  /** A returned book drops out of the overdue listing, and a book borrowed
      at t shows up in it at any time after t + 14 days. */
  lemma OverdueAfterBorrowAndReturn(books: map<BookId, Book>, n: nat, users: Users,
                                    id: BookId, user: Id, t: Time, now: Time)
    requires id in books && id < n
    ensures var lent := books[id := Borrow(books[id], user, t)];
      now > t + 14 * DayMs ==> exists k :: 0 <= k < |GetOverdueBooks(lent, n, users, now)|
                                 && GetOverdueBooks(lent, n, users, now)[k].id == id
    ensures var back := books[id := Return(books[id], t)];
      forall k :: 0 <= k < |GetOverdueBooks(back, n, users, now)| ==>
        GetOverdueBooks(back, n, users, now)[k].id != id
  {
    var lent := books[id := Borrow(books[id], user, t)];
    if now > t + 14 * DayMs {
      var r := GetOverdueBooks(lent, n, users, now);
      assert id in lent && id < n && IsOverdue(lent[id], now);
      assert exists k :: 0 <= k < |r| && r[k].id == id;
    }
  }

  // ---------------------------------------------------------------------
  // The store

  class Catalog {
    var books: map<BookId, Book>
    var nextId: nat

    ghost predicate Valid()
      reads this
    {
      StoreValid(books, nextId)
    }

    constructor ()
      ensures Valid() && books == map[] && nextId == 0
    {
      books := map[];
      nextId := 0;
    }

    /** addBook: the created record with its new id, or the create error. */
    method AddBook(input: BookInput) returns (r: Result<Doc<Book>>)
      requires Valid()
      modifies this
      ensures Valid()
      ensures Add(old(books), old(nextId), input).Err? ==>
        r == Err(Add(old(books), old(nextId), input).error) && books == old(books) && nextId == old(nextId)
      ensures Add(old(books), old(nextId), input).Ok? ==>
        r == Ok(Doc(old(nextId), NewBook(input).value))
        && books == Add(old(books), old(nextId), input).value && nextId == old(nextId) + 1
    {
      var added := Add(books, nextId, input);
      if added.Err? {
        return Err(added.error);
      }
      var id := nextId;
      books := added.value;
      nextId := nextId + 1;
      r := Ok(Doc(id, books[id]));
    }

    /** updateBook: NotFound for an unknown id; otherwise the guarded field
        loop over the payload's entries, then save. */
    method UpdateBook(id: BookId, patch: seq<BookPatchEntry>) returns (r: Result<()>)
      requires Valid()
      modifies this
      ensures Valid() && nextId == old(nextId)
      ensures Update(old(books), id, patch).Ok? ==> r == Ok(()) && books == Update(old(books), id, patch).value
      ensures Update(old(books), id, patch).Err? ==>
        r == Err(Update(old(books), id, patch).error) && books == old(books)
    {
      if id !in books {
        return Err(NotFound(MissingBook));
      }
      var book := books[id];
      var i := 0;
      while i < |patch|
        invariant 0 <= i <= |patch|
        invariant ApplyPatch(book, patch[i..]) == ApplyPatch(books[id], patch)
      {
        assert patch[i..][1..] == patch[i + 1..];
        if FieldTruthy(book, FieldOf(patch[i])) {
          book := Assign(book, patch[i]);
        }
        i := i + 1;
      }
      var saved := Save(books, id, book);
      if saved.Ok? {
        SaveKeepsValid(books, nextId, id, book);
        books := saved.value;
        r := Ok(());
      } else {
        r := Err(saved.error);
      }
    }

    /** archiveBook: NotFound for an unknown id; otherwise only the flag. */
    method ArchiveBook(id: BookId) returns (r: Result<()>)
      requires Valid()
      modifies this
      ensures Valid() && nextId == old(nextId)
      ensures id !in old(books) ==> r == Err(NotFound(MissingBook)) && books == old(books)
      ensures id in old(books) ==> r == Ok(()) && books == old(books)[id := Archive(old(books)[id])]
    {
      if id !in books {
        return Err(NotFound(MissingBook));
      }
      var book := books[id];
      book := book.(isDeleted := true);
      books := books[id := book];
      r := Ok(());
      assert IsbnsUnique(books) by {
        forall i, j | i in books && j in books && i != j ensures books[i].isbn != books[j].isbn {
          assert books[i].isbn == old(books)[i].isbn && books[j].isbn == old(books)[j].isbn;
        }
      }
    }

    /** borrowBook at time `now`, looking the user up in `users`. */
    method BorrowBook(bookId: BookId, userId: Id, users: MemberStore.Members, now: Time) returns (r: Result<()>)
      requires Valid()
      modifies this
      ensures Valid() && nextId == old(nextId)
      ensures Lend(old(books), users.records, bookId, userId, now).Ok? ==>
        r == Ok(()) && books == Lend(old(books), users.records, bookId, userId, now).value
      ensures Lend(old(books), users.records, bookId, userId, now).Err? ==>
        r == Err(Lend(old(books), users.records, bookId, userId, now).error) && books == old(books)
    {
      var borrowedDate := now;
      var dueDate := DueDateFor(borrowedDate);
      if bookId !in books {
        return Err(NotFound(MissingBook));
      }
      var book := books[bookId];
      var user := MemberStore.GetUser(users.records, userId);
      if user.None? {
        return Err(NotFound(MissingUser));
      }
      book := book.(borrowedBy := Some(userId));
      book := book.(dueDate := Some(dueDate));
      book := book.(borrowHistory := book.borrowHistory + [HistoryEntry(userId, borrowedDate, None)]);
      LendingKeepsStore(books, nextId, users.records, bookId, userId, now);
      books := books[bookId := book];
      r := Ok(());
    }

    /** returnBook at time `now`. */
    method ReturnBook(bookId: BookId, now: Time) returns (r: Result<()>)
      requires Valid()
      modifies this
      ensures Valid() && nextId == old(nextId)
      ensures Restore(old(books), bookId, now).Ok? ==> r == Ok(()) && books == Restore(old(books), bookId, now).value
      ensures Restore(old(books), bookId, now).Err? ==>
        r == Err(Restore(old(books), bookId, now).error) && books == old(books)
    {
      if bookId !in books {
        return Err(NotFound(MissingBook));
      }
      var book := books[bookId];
      book := book.(borrowedBy := None);
      book := book.(dueDate := None);
      if |book.borrowHistory| > 0 {
        var last := |book.borrowHistory| - 1;
        book := book.(borrowHistory := book.borrowHistory[last := book.borrowHistory[last].(returnedDate := Some(now))]);
      }
      assert book == Return(books[bookId], now);
      LendingKeepsStore(books, nextId, map[], bookId, 0, now);
      books := books[bookId := book];
      r := Ok(());
    }
  }
}
