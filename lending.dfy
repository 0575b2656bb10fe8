/** The per-book transitions of app/services/books.js — borrow, return,
    archive, the truthy-guarded partial update and the overdue test — as
    functions on one book, with the lending invariant and where it holds. */
module Lending {
  import opened Common
  import opened BookModel

  const BorrowingPeriodDays: int := 14

  /** The due date of a copy borrowed at `borrowedDate`: 14 days later. */
  function DueDateFor(borrowedDate: Time): Time
  {
    borrowedDate + BorrowingPeriodDays * DayMs
  }

  /** The catalogue part of a book: everything but the lending fields. */
  predicate SameCatalogue(a: Book, b: Book)
  {
    a.name == b.name && a.authors == b.authors && a.isbn == b.isbn && a.genre == b.genre
    && a.year == b.year && a.rating == b.rating && a.isDeleted == b.isDeleted
  }

  function Last(h: seq<HistoryEntry>): HistoryEntry
    requires h != []
  {
    h[|h| - 1]
  }

  /** The last lending cycle is still open. */
  predicate LastOpen(h: seq<HistoryEntry>)
  {
    h != [] && Last(h).returnedDate.None?
  }

  /** The lending invariant: borrowedBy set <==> dueDate set <==> last
      history entry open. */
  predicate LendingConsistent(b: Book)
  {
    (b.borrowedBy.Some? <==> b.dueDate.Some?) && (b.borrowedBy.Some? <==> LastOpen(b.borrowHistory))
  }

  /** Every lending cycle before the last one is closed. */
  predicate EarlierClosed(h: seq<HistoryEntry>)
  {
    forall i :: 0 <= i < |h| - 1 ==> h[i].returnedDate.Some?
  }

  /** The lending invariant together with a history free of orphaned
      entries: at most one cycle, the last, is open. */
  predicate Settled(b: Book)
  {
    LendingConsistent(b) && EarlierClosed(b.borrowHistory)
  }

  /** borrowBook on a book that was found, for a user that was found, at
      time `now`. It does not look at the current borrower. */
  function Borrow(b: Book, user: UserId, now: Time): (r: Book)
    ensures r.borrowedBy == Some(user) && r.dueDate == Some(now + 14 * DayMs)
    ensures |r.borrowHistory| == |b.borrowHistory| + 1
    ensures r.borrowHistory[..|b.borrowHistory|] == b.borrowHistory
    ensures Last(r.borrowHistory) == HistoryEntry(user, now, None)
    ensures SameCatalogue(r, b)
    ensures LendingConsistent(r)
  {
    b.(borrowedBy := Some(user), dueDate := Some(DueDateFor(now)),
       borrowHistory := b.borrowHistory + [HistoryEntry(user, now, None)])
  }

  /** returnBook on a book that was found, at time `now`. It stamps the last
      entry whether or not that entry was already closed. */
  function Return(b: Book, now: Time): (r: Book)
    ensures r.borrowedBy.None? && r.dueDate.None?
    ensures |r.borrowHistory| == |b.borrowHistory|
    ensures b.borrowHistory == [] ==> r.borrowHistory == []
    ensures b.borrowHistory != [] ==>
      r.borrowHistory[..|b.borrowHistory| - 1] == b.borrowHistory[..|b.borrowHistory| - 1]
    ensures b.borrowHistory != [] ==> Last(r.borrowHistory) == Last(b.borrowHistory).(returnedDate := Some(now))
    ensures SameCatalogue(r, b)
    ensures LendingConsistent(r)
  {
    var h := b.borrowHistory;
    b.(borrowedBy := None, dueDate := None,
       borrowHistory := if h == [] then [] else h[..|h| - 1] + [Last(h).(returnedDate := Some(now))])
  }

  /** archiveBook: only the flag changes. */
  function Archive(b: Book): (r: Book)
    ensures r.isDeleted
    ensures r.(isDeleted := b.isDeleted) == b
  {
    b.(isDeleted := true)
  }

  /** The query `dueDate < today`: a book without a due date never matches,
      and archived books are not excluded. */
  predicate IsOverdue(b: Book, now: Time)
  {
    b.dueDate.Some? && b.dueDate.value < now
  }

  // ---------------------------------------------------------------------
  // The partial update

  /** One entry of an update payload: a field name and its new value. The
      history is a payload key like any other; the id is not patchable in
      this model. */
  datatype BookPatchEntry =
    | SetName(name: string)
    | SetAuthors(authors: string)
    | SetIsbn(isbn: string)
    | SetGenre(genre: string)
    | SetYear(year: int)
    | SetRating(rating: int)
    | SetBorrowedBy(borrowedBy: Option<UserId>)
    | SetDueDate(dueDate: Option<Time>)
    | SetIsDeleted(isDeleted: bool)
    | SetBorrowHistory(borrowHistory: seq<HistoryEntry>)

  datatype BookField = Name | Authors | Isbn | Genre | Year | Rating | BorrowedBy | DueDate | IsDeleted | BorrowHistory

  function FieldOf(e: BookPatchEntry): BookField
  {
    match e
    case SetName(_) => Name
    case SetAuthors(_) => Authors
    case SetIsbn(_) => Isbn
    case SetGenre(_) => Genre
    case SetYear(_) => Year
    case SetRating(_) => Rating
    case SetBorrowedBy(_) => BorrowedBy
    case SetDueDate(_) => DueDate
    case SetIsDeleted(_) => IsDeleted
    case SetBorrowHistory(_) => BorrowHistory
  }

  /** JavaScript truthiness of `book[field]`: strings when non-empty,
      numbers when non-zero, references and dates when set, the flag when
      true, and the history array always, even when empty. */
  predicate FieldTruthy(b: Book, f: BookField)
  {
    match f
    case Name => b.name != ""
    case Authors => b.authors != ""
    case Isbn => b.isbn != ""
    case Genre => b.genre != ""
    case Year => b.year != 0
    case Rating => b.rating != 0
    case BorrowedBy => b.borrowedBy.Some?
    case DueDate => b.dueDate.Some?
    case IsDeleted => b.isDeleted
    case BorrowHistory => true
  }

  /** `book[field] = value` */
  function Assign(b: Book, e: BookPatchEntry): (r: Book)
    ensures forall f :: f != FieldOf(e) ==> Agree(r, b, f)
    ensures FieldOf(e) != BorrowHistory ==> r.borrowHistory == b.borrowHistory
    ensures e.SetBorrowHistory? ==> r.borrowHistory == e.borrowHistory
  {
    match e
    case SetName(v) => b.(name := v)
    case SetAuthors(v) => b.(authors := v)
    case SetIsbn(v) => b.(isbn := v)
    case SetGenre(v) => b.(genre := v)
    case SetYear(v) => b.(year := v)
    case SetRating(v) => b.(rating := v)
    case SetBorrowedBy(v) => b.(borrowedBy := v)
    case SetDueDate(v) => b.(dueDate := v)
    case SetIsDeleted(v) => b.(isDeleted := v)
    case SetBorrowHistory(v) => b.(borrowHistory := v)
  }

  /** The two books hold the same value in field f. */
  predicate Agree(a: Book, b: Book, f: BookField)
  {
    match f
    case Name => a.name == b.name
    case Authors => a.authors == b.authors
    case Isbn => a.isbn == b.isbn
    case Genre => a.genre == b.genre
    case Year => a.year == b.year
    case Rating => a.rating == b.rating
    case BorrowedBy => a.borrowedBy == b.borrowedBy
    case DueDate => a.dueDate == b.dueDate
    case IsDeleted => a.isDeleted == b.isDeleted
    case BorrowHistory => a.borrowHistory == b.borrowHistory
  }

  /** One step of the update loop: overwrite only a truthy field. */
  function ApplyEntry(b: Book, e: BookPatchEntry): Book
  {
    if FieldTruthy(b, FieldOf(e)) then Assign(b, e) else b
  }

  /** The update loop over the payload's entries, in order. */
  function ApplyPatch(b: Book, patch: seq<BookPatchEntry>): Book
    decreases |patch|
  {
    if patch == [] then b else ApplyPatch(ApplyEntry(b, patch[0]), patch[1..])
  }

  predicate Mentions(patch: seq<BookPatchEntry>, f: BookField)
  {
    exists i :: 0 <= i < |patch| && FieldOf(patch[i]) == f
  }

  /** The keys of a payload object are distinct. */
  predicate DistinctFields(patch: seq<BookPatchEntry>)
  {
    forall i, j :: 0 <= i < j < |patch| ==> FieldOf(patch[i]) != FieldOf(patch[j])
  }

  /** A field the payload does not mention keeps its value; for the
      history, only a payload without a `borrowHistory` key leaves it as it
      was. */
  lemma {:induction false} PatchKeepsUnmentioned(b: Book, patch: seq<BookPatchEntry>, f: BookField)
    requires !Mentions(patch, f)
    ensures Agree(ApplyPatch(b, patch), b, f)
    ensures f == BorrowHistory ==> ApplyPatch(b, patch).borrowHistory == b.borrowHistory
    decreases |patch|
  {
    if patch != [] {
      assert FieldOf(patch[0]) != f;
      assert !Mentions(patch[1..], f) by {
        forall i | 0 <= i < |patch[1..]| ensures FieldOf(patch[1..][i]) != f {
          assert patch[1..][i] == patch[i + 1];
        }
      }
      PatchKeepsUnmentioned(ApplyEntry(b, patch[0]), patch[1..], f);
    }
  }

  /** A field that is currently falsy keeps its value, whatever the payload
      says: the update can never set it. */
  lemma {:induction false} PatchKeepsFalsy(b: Book, patch: seq<BookPatchEntry>, f: BookField)
    requires !FieldTruthy(b, f)
    ensures Agree(ApplyPatch(b, patch), b, f)
    decreases |patch|
  {
    if patch != [] {
      var b' := ApplyEntry(b, patch[0]);
      assert Agree(b', b, f);
      PatchKeepsFalsy(b', patch[1..], f);
    }
  }

  /** With distinct keys, a mentioned field that is currently truthy ends
      up holding the payload's value. */
  lemma {:induction false} PatchOverwritesTruthy(b: Book, patch: seq<BookPatchEntry>, k: nat)
    requires DistinctFields(patch)
    requires k < |patch|
    requires FieldTruthy(b, FieldOf(patch[k]))
    ensures Agree(ApplyPatch(b, patch), Assign(b, patch[k]), FieldOf(patch[k]))
    decreases |patch|
  {
    var f := FieldOf(patch[k]);
    var b' := ApplyEntry(b, patch[0]);
    if k == 0 {
      assert !Mentions(patch[1..], f) by {
        forall i | 0 <= i < |patch[1..]| ensures FieldOf(patch[1..][i]) != f {
          assert patch[1..][i] == patch[i + 1];
        }
      }
      PatchKeepsUnmentioned(b', patch[1..], f);
    } else {
      assert FieldOf(patch[0]) != f;
      assert Agree(b', b, f);
      assert patch[1..][k - 1] == patch[k];
      assert DistinctFields(patch[1..]) by {
        forall i, j | 0 <= i < j < |patch[1..]| ensures FieldOf(patch[1..][i]) != FieldOf(patch[1..][j]) {
          assert patch[1..][i] == patch[i + 1] && patch[1..][j] == patch[j + 1];
        }
      }
      assert FieldTruthy(b', f) by {
        assert Agree(b', b, f);
      }
      PatchOverwritesTruthy(b', patch[1..], k - 1);
      assert Agree(Assign(b', patch[k]), Assign(b, patch[k]), f);
    }
  }

  /** An available book can never be marked as borrowed by an update, and a
      book that is not archived can never be archived by one, because both
      fields are falsy. */
  lemma PatchCannotLendOrArchive(b: Book, patch: seq<BookPatchEntry>)
    requires b.borrowedBy.None? && !b.isDeleted
    ensures ApplyPatch(b, patch).borrowedBy.None?
    ensures !ApplyPatch(b, patch).isDeleted
  {
    PatchKeepsFalsy(b, patch, BorrowedBy);
    PatchKeepsFalsy(b, patch, IsDeleted);
  }

  /** An update can break the lending invariant: clearing borrowedBy of a
      borrowed book leaves its due date and open history entry behind. */
  lemma PatchBreaksLending(b: Book)
    requires LendingConsistent(b) && b.borrowedBy.Some?
    ensures !LendingConsistent(ApplyPatch(b, [SetBorrowedBy(None)]))
  {
    assert ApplyPatch(b, [SetBorrowedBy(None)]) == b.(borrowedBy := None);
  }

  /** The history is always truthy, so a `borrowHistory` key in the payload
      always replaces it, even when it is the only key and the array is
      empty. */
  lemma PatchReplacesHistory(b: Book, patch: seq<BookPatchEntry>, k: nat)
    requires DistinctFields(patch)
    requires k < |patch| && patch[k].SetBorrowHistory?
    ensures ApplyPatch(b, patch).borrowHistory == patch[k].borrowHistory
  {
    PatchOverwritesTruthy(b, patch, k);
  }

  /** Sending `{ borrowHistory: [] }` for a borrowed book wipes its history
      and leaves the borrower and due date with no open entry. */
  lemma PatchWipesHistory(b: Book)
    requires LendingConsistent(b) && b.borrowedBy.Some?
    ensures ApplyPatch(b, [SetBorrowHistory([])]).borrowHistory == []
    ensures ApplyPatch(b, [SetBorrowHistory([])]).borrowedBy == b.borrowedBy
    ensures !LendingConsistent(ApplyPatch(b, [SetBorrowHistory([])]))
  {
    assert ApplyPatch(b, [SetBorrowHistory([])]) == b.(borrowHistory := []);
  }

  // ---------------------------------------------------------------------
  // The lending invariant under borrow and return

  /** Borrowing an available, settled book keeps it settled. */
  lemma BorrowKeepsSettled(b: Book, user: UserId, now: Time)
    requires Settled(b) && b.borrowedBy.None?
    ensures Settled(Borrow(b, user, now))
  {
    var h := b.borrowHistory;
    var h' := Borrow(b, user, now).borrowHistory;
    forall i | 0 <= i < |h'| - 1 ensures h'[i].returnedDate.Some? {
      assert h'[i] == h[i];
      if i == |h| - 1 {
        assert !LastOpen(h);
      }
    }
  }

  /** Borrowing a borrowed book orphans its open entry: the history is no
      longer settled, though the three-way invariant still holds. */
  lemma ReborrowOrphansEntry(b: Book, user: UserId, now: Time)
    requires LendingConsistent(b) && b.borrowedBy.Some?
    ensures var r := Borrow(b, user, now);
      LendingConsistent(r) && !Settled(r)
      && r.borrowHistory[|b.borrowHistory| - 1].returnedDate.None?
  {
    var r := Borrow(b, user, now);
    var k := |b.borrowHistory| - 1;
    assert r.borrowHistory[k] == b.borrowHistory[k];
  }

  /** Returning keeps a settled book settled. */
  lemma ReturnKeepsSettled(b: Book, now: Time)
    requires Settled(b)
    ensures Settled(Return(b, now))
  {
    var h := b.borrowHistory;
    var h' := Return(b, now).borrowHistory;
    forall i | 0 <= i < |h'| - 1 ensures h'[i].returnedDate.Some? {
      assert h'[i] == h[i];
    }
  }

  /** Borrow then return: the book is available again, the entry that the
      borrow added is the one closed, with the return time, and nothing
      earlier or in the catalogue fields changed. */
  lemma BorrowReturnRoundTrip(b: Book, user: UserId, t: Time, t': Time)
    ensures var r := Return(Borrow(b, user, t), t');
      r.borrowedBy.None? && r.dueDate.None?
      && |r.borrowHistory| == |b.borrowHistory| + 1
      && r.borrowHistory[..|b.borrowHistory|] == b.borrowHistory
      && r.borrowHistory[|b.borrowHistory|] == HistoryEntry(user, t, Some(t'))
      && SameCatalogue(r, b)
  {
    var m := Borrow(b, user, t);
    var r := Return(m, t');
    assert r.borrowHistory[..|b.borrowHistory|] == m.borrowHistory[..|b.borrowHistory|];
  }

  /** A second return re-stamps the last entry with the later time. */
  lemma ReturnTwiceRestamps(b: Book, t: Time, t': Time)
    requires b.borrowHistory != []
    ensures Last(Return(Return(b, t), t').borrowHistory).returnedDate == Some(t')
    ensures Return(Return(b, t), t').borrowHistory[..|b.borrowHistory| - 1]
         == b.borrowHistory[..|b.borrowHistory| - 1]
  {
  }

  /** A sequence of lending operations on one book. */
  datatype LendingOp = BorrowOp(user: UserId, at: Time) | ReturnOp(at: Time)

  function Run(b: Book, ops: seq<LendingOp>): Book
    decreases |ops|
  {
    if ops == [] then b
    else
      var b' := match ops[0]
        case BorrowOp(u, t) => Borrow(b, u, t)
        case ReturnOp(t) => Return(b, t);
      Run(b', ops[1..])
  }

  /** No later borrow or return ever touches an entry before the last one:
      an orphaned entry stays open forever. */
  lemma {:induction false} EarlierEntriesFrozen(b: Book, ops: seq<LendingOp>, i: nat)
    requires i < |b.borrowHistory| - 1
    ensures i < |Run(b, ops).borrowHistory| - 1
    ensures Run(b, ops).borrowHistory[i] == b.borrowHistory[i]
    decreases |ops|
  {
    if ops != [] {
      var b' := match ops[0]
        case BorrowOp(u, t) => Borrow(b, u, t)
        case ReturnOp(t) => Return(b, t);
      assert b'.borrowHistory[i] == b.borrowHistory[i] by {
        if ops[0].BorrowOp? {
          assert b'.borrowHistory[..|b.borrowHistory|] == b.borrowHistory;
        } else {
          assert b'.borrowHistory[..|b.borrowHistory| - 1] == b.borrowHistory[..|b.borrowHistory| - 1];
        }
      }
      EarlierEntriesFrozen(b', ops[1..], i);
    }
  }

  /** The overdue boundary: a copy borrowed at t is overdue at `now`
      exactly when now is strictly after t + 14 days; a returned copy never
      is. */
  lemma OverdueBoundary(b: Book, user: UserId, t: Time, now: Time, t': Time)
    ensures IsOverdue(Borrow(b, user, t), now) <==> now > t + 14 * DayMs
    ensures !IsOverdue(Borrow(b, user, t), t + 14 * DayMs)
    ensures !IsOverdue(Return(b, t'), now)
  {
  }

  /** Archiving twice is archiving once. */
  lemma ArchiveIdempotent(b: Book)
    ensures Archive(Archive(b)) == Archive(b)
  {
  }

  /** The transitions keep a schema-valid book schema-valid, so their save
      never fails validation. */
  lemma TransitionsKeepSchema(b: Book, user: UserId, t: Time)
    requires SchemaValid(b)
    ensures SchemaValid(Borrow(b, user, t)) && SchemaValid(Return(b, t)) && SchemaValid(Archive(b))
  {
  }
}
