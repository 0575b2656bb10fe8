# Library lending backend: a Dafny model

This project models the core of a small library system written with Express and Mongoose, and of its React front end. It covers:

- the book catalogue and lending engine: add, partial update, archive, borrow and return, plus the list, lookup, overdue and history queries;
- the member store: registration, partial update, archive, lookup by id, and the search-and-page listing;
- the two record schemas, with their required fields, enums, defaults and unique indexes;
- the request validators of the book and member routes;
- the front-end pure pieces: the form checks, the page-to-offset arithmetic, and the optimistic cache transforms of the create, update and delete mutations.

## Modules

| file | module | what it holds |
|---|---|---|
| `common.dfy` | `Common` | Options and results, the error kinds, timestamps (integer milliseconds), record ids, and `Select`, which is a store query in natural (ascending id) order. |
| `request_body.dfy` | `RequestBody` | JSON values and JavaScript truthiness. Also express-validator's string form of a value and its `notEmpty`, `isString`, `isIn` and `isInt` checks, the decimal rendering and parsing of integers, and Mongoose's string cast. |
| `book_model.dfy` | `BookModel` | The book record, `Book.create` validation with its defaults, and the unique ISBN index. |
| `lending.dfy` | `Lending` | Borrow, return, archive, the overdue test and the truthy-guarded patch, each on one book. Also the lending invariant and the lemmas about it. |
| `book_service.dfy` | `BookService` | The `Catalog` class: a map of books and an id counter. Its methods update the map in place. The store transitions and the queries are functions of the map. |
| `user_model.dfy` | `UserModel` | The member record, `User.create` validation with its defaults, and the unique email index. |
| `member_store.dfy` | `MemberStore` | The `Members` class and the member store of the app services. |
| `member_search.dfy` | `MemberSearch` | The search, archive filter and skip/limit paging of the back end's `getUsers`. |
| `book_validators.dfy`, `user_validators.dfy` | `BookValidators`, `UserValidators` | The express-validator chains, as lists of field errors. |
| `book_form.dfy`, `user_form.dfy` | `BookForm`, `UserForm` | `validateBook` and `validateUser`, and when the save handlers refuse a row. |
| `table_cache.dfy` | `TableCache` | The page request of a table and the three optimistic cache transforms. |

### Modelling choices

- **Stores and state.** A store is a `map` from ids to records, together with a `nextId` counter; ids are handed out in increasing order, so a listing in ascending id order is the insertion order. The methods of `Catalog` and `Members` change these fields, state the new fields through the store functions, and keep the store invariant `Valid()`: every id is below the counter, every record passes schema validation, and the unique key really is unique.
- **Saving.** Mongoose runs validation and the unique index on every `save()`:
  - validation failure is `ValidationFailed`;
  - a unique-index clash is `DuplicateKey`, the conflict error.

  The borrow, return and archive saves cannot fail. Those transitions keep a valid book valid (`Lending.TransitionsKeepSchema`) and never change its ISBN, so the model performs these saves without re-checking.
- **Partial updates.** The update payload is an ordered sequence of field assignments, in the order `Object.entries` lists the keys. Each assignment takes effect only when the field's current value is truthy. The history is an array, which is always truthy, so a `borrowHistory` key in the payload always replaces it. `_id` is not patchable in this model.
- **Time and ids.** Timestamps are integer milliseconds, and "14 days later" is `now + 14 * 86400000`. The current time is a parameter. Ids are natural numbers.
- **Search.** The back-end member search is a literal, ASCII case-insensitive substring match on the email.
- **Lookups.** The member lookup used by `borrowBook` goes by id only, so it finds archived members too. The second copy of the user services (`backend/app/services/users.js`) has `getUser`, `registerUser`, `updateUser` and `archiveUser` identical to the app copy. `MemberStore` models both copies, and `MemberSearch` models the one function that differs, `getUsers`.
- **Archived records.** Archiving is a flag, and only the member search filters on it:
  - `getOverdueBooks` and `getBooks` do **not** exclude archived books (`{ dueDate: { $lt: today } }` and `find(params)`);
  - `borrowBook` borrows an archived book and lends to an archived member;
  - `getBook` and `getBookHistory` find archived books.
- **Front-end pagination.** `TableCache.RequestFor` gives the `offset` and `limit` a table sends. The app's `getBooks(params)` passes its parameters to `find` unchanged, so the model pages only the member listing.

## Model

| member | source | states |
|---|---|---|
| Common.Select | app/services/books.js:5-7 | A store query returns exactly the ids of the stored records that satisfy the filter, each once, in ascending (insertion) order. |
| Common.Docs | app/services/users.js:4-6 | Turns an id list into the query's documents: the same length, the stored record at each position. |
| Common.IncreasingDetermined | backend/app/services/users.js:9-11 | Two increasing id lists with the same elements are equal, so a query result is fixed by which records it selects. |
| RequestBody.NatDecimal | backend/app/schemas/books.js:21-24 | The decimal form of a number is a non-empty string of digits, with at least two digits from 10 on and no leading zero. |
| RequestBody.ParseInt | backend/app/schemas/books.js:23 | `isInt` accepts exactly a non-empty string of digits, optionally after one `+` or `-`. The value read is the digits' decimal value, negated after `-`. |
| RequestBody.NatDecimalRoundTrip | backend/app/schemas/books.js:23 | Reading back the decimal form of a natural number gives the number. |
| RequestBody.DecimalRoundTrip | backend/app/schemas/books.js:23 | Reading back the decimal form of any integer, negatives included, gives the integer. |
| RequestBody.DecimalHead | backend/app/schemas/books.js:19 | A number's string form starts with a digit or a minus sign. |
| RequestBody.StringCast | app/models/book.js:6-18 | A String path casts a scalar to its string form and leaves a null or missing value unset. |
| RequestBody.NumberIsIn | backend/app/schemas/books.js:27 | A number passes `isIn` on the string forms of a list exactly when it is in the list. |
| RequestBody.DecimalsOf | backend/app/schemas/books.js:27 | The list `isIn` compares against holds the string form of each listed number, in order. |
| RequestBody.NumberIsIntAtLeast | backend/app/schemas/books.js:23 | A number passes `isInt({ min })` exactly when it is at least `min`. |
| BookModel.NewBook | app/models/book.js:4-54 | `Book.create` succeeds exactly when name, authors and isbn are non-empty, genre is in the list, year is present, and any rating given is 1 to 5. On success the book has the given fields, rating defaults to 1, the history to empty and the flag to false; otherwise the error is a validation failure. |
| BookModel.NewBookIsAvailable | app/models/book.js:33-51 | A book created without lending fields is available, has an empty history and is not archived. |
| BookModel.MissingRequiredFieldFails | app/models/book.js:6-27 | Leaving out any required field makes create fail validation. |
| BookModel.EnumViolationFails | app/models/book.js:19-31 | A genre outside the list, or a rating outside 1 to 5, makes create fail validation. |
| Lending.Borrow | app/services/books.js:45-71 | After a borrow the book is lent to the user, due 14 days later, with one new open entry `(user, now)` appended and earlier entries unchanged. The catalogue fields are kept and the lending invariant holds. |
| Lending.Return | app/services/books.js:73-88 | After a return, borrower and due date are cleared. If the history is non-empty, only the last entry changes, stamped with the return time; an empty history stays empty. The lending invariant holds. |
| Lending.Archive | app/services/books.js:33-43 | Archiving sets the flag and changes nothing else. |
| Lending.Assign | app/services/books.js:24-28 | One assignment changes only its own field. The history changes only through a `borrowHistory` key, and then becomes the payload's array. |
| Lending.PatchKeepsUnmentioned | app/services/books.js:24-28 | A field the payload does not mention keeps its value; the history is kept only by a payload without a `borrowHistory` key. |
| Lending.PatchKeepsFalsy | app/services/books.js:25 | A field that is currently falsy (an empty string, 0, unset or false) keeps its value whatever the payload says. |
| Lending.PatchOverwritesTruthy | app/services/books.js:24-28 | When payload keys are distinct, a mentioned field that is currently truthy ends up with the payload's value. |
| Lending.PatchCannotLendOrArchive | app/services/books.js:25-26 | An update can never mark an available book as borrowed, and never archive a book. |
| Lending.PatchBreaksLending | app/services/books.js:24-28 | An update that clears the borrower of a borrowed book breaks the lending invariant. |
| Lending.PatchReplacesHistory | app/services/books.js:24-28 | The history is always truthy, so with distinct keys a `borrowHistory` key always replaces it with the payload's array. |
| Lending.PatchWipesHistory | app/services/books.js:24-28 | The payload `{ borrowHistory: [] }` empties a borrowed book's history and keeps its borrower, which breaks the lending invariant. |
| Lending.BorrowKeepsSettled | app/services/books.js:63-68 | Borrowing an available book with a settled history keeps it settled: only the last entry is open. |
| Lending.ReborrowOrphansEntry | app/services/books.js:63-68 | Borrowing a borrowed book keeps the three-way invariant, but leaves the previous entry open for good. |
| Lending.ReturnKeepsSettled | app/services/books.js:80-85 | Returning keeps a settled book settled. |
| Lending.BorrowReturnRoundTrip | app/services/books.js:63-85 | Borrow then return makes the book available again. It adds exactly one closed entry, `(user, t, t')`, and changes nothing else. |
| Lending.ReturnTwiceRestamps | app/services/books.js:83-85 | A second return re-stamps the last entry with the later time and leaves the others alone. |
| Lending.EarlierEntriesFrozen | app/services/books.js:65-84 | No later borrow or return changes an entry before the last, so an orphaned entry stays open. |
| Lending.OverdueBoundary | app/services/books.js:90-93 | A copy borrowed at t is overdue exactly after t plus 14 days; it is not overdue at that instant, and a returned copy never is. |
| Lending.ArchiveIdempotent | app/services/books.js:40 | Archiving twice is the same as archiving once. |
| Lending.TransitionsKeepSchema | app/services/books.js:42-87 | Borrow, return and archive keep a valid book valid, so their saves pass validation. |
| BookService.Add | app/services/books.js:13-15 | Create fails validation, fails on an ISBN already in the store, or stores the new book under the next id. In the last case the store invariant is kept. |
| BookService.Save | app/services/books.js:30 | Save succeeds exactly when the book is valid and no other book has its ISBN; it reports which check failed. |
| BookService.SaveKeepsValid | app/services/books.js:30 | A successful save keeps ids, validity and ISBN uniqueness. |
| BookService.Update | app/services/books.js:17-31 | An unknown id is NotFound. For a stored id, the update succeeds exactly when the patched book is valid and its ISBN is not another book's, and otherwise reports which check failed. On success only that book changes, to the patched book. |
| BookService.Lend | app/services/books.js:45-71 | The book is looked up first, then the user. Either lookup failing is NotFound for that entity. On success only that book changes, to its borrowed form. |
| BookService.Restore | app/services/books.js:73-88 | An unknown id is NotFound; on success only that book changes, to its returned form. |
| BookService.LendingKeepsStore | app/services/books.js:33-88 | Archive, borrow and return keep the store invariant, and keep the lending invariant of every stored book. |
| BookService.View | app/services/books.js:6 | A listed book carries its id and every stored field but the history: putting any history back gives the stored book with that history. |
| BookService.Resolve | app/services/books.js:6 | A borrower reference resolves exactly when that member exists, to that member's document with its id. |
| BookService.Populated | app/services/books.js:6 | `populate` replaces the borrower reference and keeps every other field of the view. |
| BookService.BorrowerEmail | app/services/books.js:6 | The populated borrower of a listed book is the member's email when the reference resolves, and null otherwise. |
| BookService.Listing | app/services/books.js:6 | Each listed book is its view with the borrower reference replaced by the populated email, or null. |
| BookService.GetBooks | app/services/books.js:5-7 | Returns exactly the matching books, archived ones included unless the filter says otherwise, in insertion order. Each row's borrower is the member's email when the reference resolves. Otherwise it is null, so a book with a dangling reference lists as not lent. Every other field is the stored one. |
| BookService.GetBook | app/services/books.js:9-11 | Archived or not, a stored book comes back without its history; an unknown id gives nothing. |
| BookService.OverdueListing | app/services/books.js:92 | Each overdue entry is the book's view with the borrower reference replaced by the whole member document, its id included, or null. |
| BookService.GetOverdueBooks | app/services/books.js:90-93 | Returns exactly the books due strictly before now, archived ones included, in insertion order, each with its borrower reference replaced by the whole member document, its id included, or null. |
| BookService.ResolveEntry | app/services/books.js:96-99 | A history entry keeps its dates; its user resolves to id and email when the member exists. |
| BookService.ResolveHistory | app/services/books.js:96-99 | Every entry is resolved, in history order. |
| BookService.GetBookHistory | app/services/books.js:95-106 | An unknown id is NotFound; otherwise the whole book comes back, with one resolved entry per history entry, the same dates, and the entry's member as id and email when it exists, or nothing. |
| BookService.OverdueAfterBorrowAndReturn | app/services/books.js:45-93 | A book borrowed at t is listed as overdue at any time after t plus 14 days. A returned book is not listed. |
| BookService.Catalog.AddBook | app/services/books.js:13-15 | The store changes exactly as `Add` says, the counter moves on after a success, and the created record is returned. |
| BookService.Catalog.UpdateBook | app/services/books.js:17-31 | The loop applies the payload with the truthy guard, then saves. The new store is `Update`'s, and on an error the store is unchanged. |
| BookService.Catalog.ArchiveBook | app/services/books.js:33-43 | An unknown id is NotFound; otherwise only that book's flag is set. |
| BookService.Catalog.BorrowBook | app/services/books.js:45-71 | The new store is `Lend`'s. The member store is consulted only for lookup. |
| BookService.Catalog.ReturnBook | app/services/books.js:73-88 | The new store is `Restore`'s. |
| UserModel.NewMember | app/models/user.js:3-28 | `User.create` succeeds exactly when both names and the email are non-empty. `memberSince` defaults to now and the flag to false. |
| UserModel.NewMemberDefaults | app/models/user.js:18-25 | Without an explicit date or flag, a new member joins now and is not archived. |
| MemberStore.GetUsers | app/services/users.js:4-6 | Returns exactly the members matching the filter, archived ones included unless the filter says otherwise, in insertion order. |
| MemberStore.GetUser | app/services/users.js:8-10 | Lookup by id finds a stored member whether archived or not. |
| MemberStore.Assign | app/services/users.js:23-27 | One assignment changes only its own field. |
| MemberStore.PatchKeepsUnmentioned | app/services/users.js:23-27 | A field the payload does not mention keeps its value. |
| MemberStore.PatchKeepsFalsy | app/services/users.js:24 | A currently falsy field keeps its value whatever the payload says. |
| MemberStore.PatchOverwritesTruthy | app/services/users.js:23-27 | When payload keys are distinct, a mentioned truthy field takes the payload's value. |
| MemberStore.PatchArchiveFlag | app/services/users.js:23-27 | An update can never archive a member, but it can restore an archived one. |
| MemberStore.Save | app/services/users.js:29 | Save succeeds exactly when the member is valid and no other member has the email; it reports which check failed. |
| MemberStore.SaveKeepsValid | app/services/users.js:29 | A successful save keeps the store invariant. |
| MemberStore.Update | app/services/users.js:16-30 | An unknown id is NotFound. For a stored id, the update succeeds exactly when the patched member is valid and its email is not another member's, and otherwise reports which check failed. On success only that member changes, to the patched member. |
| MemberStore.Members.RegisterUser | app/services/users.js:12-14 | Fails validation, fails on a taken email, or stores the new member under the next id and returns it. |
| MemberStore.Members.UpdateUser | app/services/users.js:16-30 | The guarded loop, then the save. The new store is `Update`'s, and on an error the store is unchanged. |
| MemberStore.Members.ArchiveUser | app/services/users.js:32-42 | An unknown id is NotFound; otherwise only that member's flag is set. |
| MemberSearch.LowerChar | backend/app/services/users.js:7 | The `i` option folds exactly the ASCII capitals to lower case. |
| MemberSearch.Lower | backend/app/services/users.js:7 | Folding a string folds each character and keeps the length. |
| MemberSearch.Occurs | backend/app/services/users.js:7 | The scan answers true exactly when the pattern occurs somewhere in the text. |
| MemberSearch.Page | backend/app/services/users.js:9-11 | Skip, then limit: the result is the run of rows from the offset, as many as the limit allows (limit 0 means all), and empty past the end. |
| MemberSearch.Matching | backend/app/services/users.js:5-9 | Returns exactly the members that are not archived and match the search, in insertion order. |
| MemberSearch.GetUsers | backend/app/services/users.js:4-12 | Each returned member is stored, not archived and, when the search is non-empty, has an email containing it in any case. The result is in insertion order and at most `limit` long. It is the window of the matching members that starts at the offset and is as long as the skip-then-limit page. |
| MemberSearch.UnpagedIsComplete | backend/app/services/users.js:4-12 | Without paging, every non-archived member matching the search is listed. |
| MemberSearch.EmptySearchIsNoSearch | backend/app/services/users.js:6-8 | An empty search string gives the same listing as no search. |
| MemberSearch.SearchIgnoresCase | backend/app/services/users.js:7 | Folding either side first does not change whether the search matches. |
| MemberSearch.LowerIdempotent | backend/app/services/users.js:7 | Folding twice is the same as folding once. |
| MemberSearch.PageKeepsOrder | backend/app/services/users.js:9-11 | A page of an id-ordered listing is id-ordered. |
| MemberSearch.PagesTile | backend/app/services/users.js:10-11 | Page i followed by page i + 1 is the double-size window at i times the size. |
| MemberSearch.PageHoldsPosition | backend/app/services/users.js:10-11 | Row j of the listing is row j mod size of page j div size. |
| MemberSearch.ArchivedNotListed | backend/app/services/users.js:9 | Once archived, a member is on no page, whatever the search. |
| BookValidators.Join | backend/app/schemas/books.js:20 | Joining one part gives that part; joining none gives the empty string. |
| BookValidators.JoinAppend | backend/app/schemas/books.js:20 | Joining one more part appends the separator and the part. |
| BookValidators.GenreListMessage | backend/app/schemas/books.js:20 | The genre message lists the three genres, separated by ", ". |
| BookValidators.RatingListMessage | backend/app/schemas/books.js:28 | The rating message lists the ratings 1 to 5, separated by ", ". |
| BookValidators.RequiredChain | backend/app/schemas/books.js:5-8 | A create chain reports nothing exactly when the value is non-empty and passes the check. Otherwise it reports exactly one error per failing validator, in chain order: the required message for an empty value, then the invalid message for a failed check. |
| BookValidators.OptionalChain | backend/app/schemas/books.js:32-36 | An update chain reports nothing for a missing field. For a present one it reports exactly one error per failing validator, in chain order: the default message when the value is empty, then the invalid message when the check fails. No other message appears. |
| BookValidators.CreateBookErrors | backend/app/schemas/books.js:4-29 | Create is accepted exactly when every field is non-empty and passes its check: strings for the three names, genre in the list, year an integer of at least 1800, rating in 1 to 5. |
| BookValidators.UpdateBookErrors | backend/app/schemas/books.js:31-62 | Update is accepted exactly when every present field is non-empty and passes its check. |
| BookValidators.UpdateBookErrorsFixed | backend/app/schemas/books.js:42-46 | With the isbn message corrected, update accepts exactly the same bodies. |
| BookValidators.FixedUpdateAgreesWithCreate | backend/app/schemas/books.js:4-62 | On a body with every field filled in, the corrected update validator reports exactly what create reports. |
| BookValidators.OnlyIsbnFails | backend/app/schemas/books.js:13-16 | On a filled-in body whose only failing check is the isbn one, create reports the isbn message once, and update as written reports the authors message once. |
| BookValidators.UpdateIsbnMessageDiffers | backend/app/schemas/books.js:42-46 | As written, an isbn that is not a string gets the authors message on update, so update and create report differently. |
| BookValidators.MissingRatingRequired | backend/app/schemas/books.js:25-28 | A create body without a rating is reported as missing its rating. |
| BookValidators.MissingNameReportedTwice | backend/app/schemas/books.js:5-8 | A missing name is reported twice, once as required and once as invalid. |
| BookValidators.EmptyUpdateAccepted | backend/app/schemas/books.js:31-62 | An update body with no fields passes. |
| BookValidators.YearBoundary | backend/app/schemas/books.js:21-24 | A number year passes exactly from 1800 on. |
| BookValidators.RatingRange | backend/app/schemas/books.js:25-28 | A number rating passes exactly when it is 1 to 5. |
| BookValidators.CastInt | app/models/book.js:24-31 | A Number path takes a number as it is and leaves a null or missing value unset. |
| BookValidators.IntStringsOfRatings | backend/app/schemas/books.js:27 | A string that `isIn` accepts for the rating reads as a listed rating. |
| BookValidators.GenreIsString | backend/app/schemas/books.js:19 | Only a string passes the genre check. |
| BookValidators.AcceptedCreateIsValid | backend/app/schemas/books.js:4-29 | A body that the create validator accepts gives a book that passes the model's validation. |
| UserValidators.RequiredChain | app/schemas/users.js:4-15 | A register chain reports nothing exactly when the value is non-empty and passes. Otherwise it reports exactly one error per failing validator, in chain order: the required message, then the invalid message; a non-empty value gets only the invalid message. |
| UserValidators.OptionalChain | app/schemas/users.js:23-37 | An update chain reports nothing for a missing field. For a present one it reports exactly one error per failing validator, in chain order: the default message for an empty value, then the invalid message for a failed check. No other message appears. |
| UserValidators.MemberSinceChain | app/schemas/users.js:16-19 | The join date is checked only when present, and only for being a date. |
| UserValidators.RegisterErrors | app/schemas/users.js:3-20 | Register is accepted exactly when both names are non-empty strings, the email is non-empty and an email, and any join date is a date. |
| UserValidators.UpdateErrors | app/schemas/users.js:22-42 | Update is accepted exactly when every present field passes its register check. |
| UserValidators.UpdateAgreesWithRegister | app/schemas/users.js:3-42 | With the three required fields filled in, update reports exactly what register reports. |
| UserValidators.MemberSinceIsOptional | app/schemas/users.js:16-19 | On register, a missing join date gives no report about the join date. |
| UserValidators.EmptyEmailIsMissing | app/schemas/users.js:12-15 | An empty email is reported as missing, whatever the email check says. |
| UserValidators.EmptyUpdateAccepted | app/schemas/users.js:22-42 | An update body with no fields passes. |
| UserValidators.AcceptedRegisterIsValid | app/schemas/users.js:3-20 | A body that the register validator accepts gives a member that passes the model's validation. |
| BookForm.ValidateBook | frontend/src/Books.tsx:601-626 | As written: each text field passes exactly when it is a non-empty string, and year when it is truthy. Each failing field carries its own required-field message, and the rating message is decided by the year. |
| BookForm.ValidateBookFixed | frontend/src/Books.tsx:622-624 | The corrected rating check passes exactly when the rating is truthy; every other message matches the as-written check. |
| BookForm.FixedBlocksUnlessFilled | frontend/src/Books.tsx:264-268 | With the corrected check, a row is sent exactly when every field is filled in. |
| BookForm.MissingRatingNotCaught | frontend/src/Books.tsx:622-624 | As written, a row without a rating is sent; the corrected check blocks it. |
| BookForm.MissingYearBlamesRating | frontend/src/Books.tsx:619-624 | As written, a row with a rating but no year is also reported as missing its rating. |
| BookForm.TruthyIsNotEmpty | frontend/src/Books.tsx:603 | A value the form treats as filled in is non-empty for the server. |
| BookForm.FixedPassMeansPresent | frontend/src/Books.tsx:601-626 | A row that passes the corrected check gets no "required" error from the server's create validator. |
| BookForm.AsWrittenPassCanMissRating | frontend/src/Books.tsx:622-624 | As written, a row that passes the check can still get "rating required" from the server. |
| UserForm.ValidateUser | frontend/src/Users.tsx:431-443 | Each of the three fields passes exactly when it is a non-empty string, and otherwise carries its own message. |
| UserForm.BlocksUnlessFilled | frontend/src/Users.tsx:160-164 | A row is sent exactly when both names and the email are non-empty strings. |
| UserForm.MemberSinceIgnored | frontend/src/Users.tsx:431-443 | The join date plays no part in the check. |
| UserForm.PassMeansNamesAccepted | frontend/src/Users.tsx:431-443 | A row that passes the check gets no "required" error, and no error on the names, from the register validator. |
| TableCache.RequestFor | frontend/src/Books.tsx:525-526 | Page 0 starts at offset 0, each next page starts one page size later, and the limit is the page size. |
| TableCache.ConsecutivePagesTile | frontend/src/Users.tsx:365-366 | The requests for two consecutive pages fetch adjacent windows of the listing, with no gap and no overlap. |
| TableCache.EveryRowHasAPage | frontend/src/Users.tsx:365-366 | Every row of the listing is shown on page j div size, at row j mod size. |
| TableCache.AppendRow | frontend/src/Books.tsx:493-503 | The create transform appends the row after the cached rows, and throws on an absent cache entry. |
| TableCache.ReplaceRows | frontend/src/Books.tsx:562-567 | The update transform keeps the length and replaces exactly the rows with the same id. |
| TableCache.RemoveRows | frontend/src/Books.tsx:582-585 | The delete transform drops every row with the id, exactly as many rows as carry it, and keeps every other row. |
| TableCache.ReplaceCached | frontend/src/Users.tsx:390-395 | An absent cache entry stays absent; a present one is updated. |
| TableCache.RemoveCached | frontend/src/Users.tsx:410-413 | An absent cache entry stays absent; a present one is filtered. |
| TableCache.RemoveConcat | frontend/src/Books.tsx:582-585 | Filtering distributes over concatenation, so the surviving rows keep their order. |
| TableCache.AppendThenRemove | frontend/src/Books.tsx:493-585 | Deleting a row that was just appended leaves what deleting it from the old rows leaves. |
| TableCache.RemoveIdempotent | frontend/src/Books.tsx:582-585 | Deleting twice is the same as deleting once. |
| TableCache.RemoveAbsent | frontend/src/Books.tsx:582-585 | Deleting an id that no row has changes nothing. |
| TableCache.ReplaceIdempotent | frontend/src/Books.tsx:562-567 | Updating twice with the same row is the same as updating once. |
| TableCache.ReplaceThenRemove | frontend/src/Books.tsx:562-585 | Deleting a row after an optimistic update of it is the same as deleting it. |
| TableCache.ReplaceChangesOneRow | frontend/src/Books.tsx:562-567 | With unique ids, an update replaces exactly the row with that id. |

## Left out

- **I/O and the framework.** The database, HTTP, the Express routes, the controllers, the validation handler middleware and the error handler are not part of this model. The services are modelled as functions and methods on the stores. The controllers' defaults of 10 and 0 for `limit` and `offset` are not part of this model.
- **Time.** `new Date()` is a parameter. The due date is 14 times 24 hours later; `setDate` across a daylight-saving change is not modelled.
- **Mongoose populate projections.** `"name email -_id"` and `"name email"` ask for a `name` path that members do not have, so the model returns only the email, in place of the reference, for the book listing, and the id and email for the history. The overdue listing's plain `populate("borrowedBy")` gives the whole member document with its id. A reference that no longer resolves reads as null.
- **Type casting.** The model covers only the integer and string forms of a value. Non-integral numbers, arrays, objects, dates and ObjectId validation (`isMongoId`) are not part of this model, and neither is the cast of update values.
- MemberSearch.GetUsers: it treats the search as a literal pattern. Regular-expression metacharacters in the search, and case folding beyond ASCII, are not modelled.
- UserValidators.RegisterErrors: it takes validator.js's `isEmail` and `isDate` as parameters, because those grammars are not part of this model.
- UserValidators.UpdateErrors: it takes `isEmail` and `isDate` as parameters, for the same reason.
- **React Query.** The cache transforms are modelled on the value the updater receives. The mutations write the cache entry `["books"]` (or `["users"]`), while the queries read `["books", filter, pageIndex, pageSize]`. Whether an entry exists under the shorter key, and what React Query does when the create transform throws, are not part of this model.
- **The HTTP side of the mutations.** Removing `_id` from the body, and the choice of URL and verb, are not part of this model. Neither is the history dialog.
- **Concurrency.** Every operation runs in one step. Interleaved read-modify-write cycles of concurrent requests are not modelled.
- **The genre and rating lists.** The constants module that holds them is not part of this model. The lists are the three genres and the ratings 1 to 5, as the front end's `Book` type lists them.
- BookService.Catalog.BorrowBook: it does not call `Save`. On a valid store that save always succeeds, because of `Lending.TransitionsKeepSchema` and because the ISBN does not change.
- BookService.Catalog.ReturnBook: it does not call `Save`, for the same reason.
- BookService.Catalog.ArchiveBook: it does not call `Save`, for the same reason.
- MemberStore.Members.ArchiveUser: it does not call `Save`. On a valid store that save always succeeds, because the flag plays no part in validation and the email does not change.
- Lending.BookPatchEntry: a payload `_id` key, which the update loop would also assign since an id is truthy, is not modelled; what Mongoose then does on save is not part of this model. Keys that are neither fields nor members of the document read as undefined and are skipped, which the model shows by having no entry for them.
- Lending.BookPatchEntry and MemberStore.MemberPatchEntry: payload keys that name a method or a virtual of the Mongoose document are not modelled. Such members are truthy, so the loop overwrites them. A `save` key, for instance, makes the following `save()` call throw a TypeError, which is none of the model's error kinds, and nothing is saved. The `id` virtual is overwritten the same way.

## Findings

| source | as written | input that shows it | evidently intended | confidence | as-written member | corrected member |
|---|---|---|---|---|---|---|
| frontend/src/Books.tsx:622 | The rating message is decided by `validateNumberRequired(book.year)`. | A row with every field filled in and no rating passes the form check, and the server then answers "rating required". | `validateNumberRequired(book.rating)` | high (not executed) | BookForm.ValidateBook, with BookForm.MissingRatingNotCaught and BookForm.AsWrittenPassCanMissRating | BookForm.ValidateBookFixed, with BookForm.FixedBlocksUnlessFilled and BookForm.FixedPassMeansPresent |
| backend/app/schemas/books.js:46 | The update chain for `isbn` reports "Неверное значение для поля `Авторы`", the authors message. | An update body whose isbn is the number 5 is reported under `isbn` with the authors message; create reports the isbn message. | "Неверное значение для поля `isbn`", as in the create chain | high (not executed) | BookValidators.UpdateBookErrors, with BookValidators.UpdateIsbnMessageDiffers | BookValidators.UpdateBookErrorsFixed, with BookValidators.FixedUpdateAgreesWithCreate |
