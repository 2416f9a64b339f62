# FieldNotes notes service and credential checks in Dafny

FieldNotes is a note-taking web application. This project models two
parts of its API:

- **`NoteService`**: the notes table and the six operations on it, which
  are create, update, delete, the paged and filtered listing, the category
  list and the lookup by id.
- **The credential check of `UsersController`**: the length bounds on the
  email, username and password of a login or a registration.

The table is the mutable field `notes: seq<Note>` of the class
`NoteStore.NoteService`. It holds the rows in storage order, and the
class invariant `Valid()` is the primary-key constraint: ids are unique.
`Find(notes, id)` is the keyed view that `DbSet.FindAsync` gives.

- Create, Update and Delete are methods that reassign the field. Each one
  states the new table in full: the row added, replaced or removed, and
  every other id unchanged.
- GetCategories and GetById are functions of the table. The listing is a
  method, because it rewrites the page parameters in the request object it
  is given.
- The listing's paging has two defects (see "## Findings"). Each is
  modelled as written, with a lemma showing the wrong result. The service
  method uses the corrected paging.

LINQ is modelled on sequences in module `NoteQueries`:

- `Where` is `Filter`.
- `OrderByDescending` is the stable insertion sort `SortByLastUpdatedDesc`.
- `Skip` and `Take` are `Skip` and `Take`, with the meaning the in-memory
  provider gives them (that of LINQ to Objects).
- `Distinct` is `Distinct`, which keeps first occurrences.
- The `Skip` argument `(PageNumber - 1) * PageSize` is evaluated in
  unchecked 32-bit arithmetic, as C# does (`Wrap32`, `SkipOffset`).

Module layout:

- `wrappers.dfy`: Option, Result and Outcome.
- `notes.dfy`: the entity, the request and response records, the error
  messages and `IsNullOrEmpty`.
- `note_queries.dfy`: the query functions and the lemmas about them.
- `note_service.dfy`: the service class.
- `credentials.dfy`: `ValidateCredentailRequest`.

Oracles and arguments:

- `Guid.Parse` and `Guid.ToString` are the functions `parse` and `format`,
  fixed when the service is built. `parse` returns `None` where
  `Guid.Parse` throws `FormatException`.
- `Guid.NewGuid` is the argument `freshId`. Its precondition is that the
  id is not already in the table.
- `DateTimeOffset.UtcNow` is the argument `now`.

In the listing and the category list, `Guid.Parse(userId)` sits inside the
query lambda. Entity Framework evaluates that closed sub-expression once,
as a query parameter, before the query is sent. When that evaluation
throws, Entity Framework raises an `InvalidOperationException` with the
`FormatException` as its inner exception. So on a malformed user id these
two operations fail with `QueryParameterError`, even when the table is
empty. Create, Update, Delete and GetById call `Guid.Parse` directly and
fail with `FormatError`.

The update's not-found message is "Note is not found!", but
`NoteServiceTests.cs` at line 161 expects "Note not found!". The
model uses the message in `NoteService.cs`.

## Model

| member | source | states |
|---|---|---|
| NoteStore.NoteService.Create | src/FieldNotes.Api/Notes/NoteService.cs:12-28 | An unparseable user id fails with nothing added. Otherwise the table gains exactly one row at its end: the request's fields, the parsed owner, the given time and editor, under the fresh id. The new id finds the row, every other id finds what it found before, and ids stay unique. |
| NoteStore.NoteService.Update | src/FieldNotes.Api/Notes/NoteService.cs:31-50 | Fails with the format error on a malformed id, and with NotFound "Note is not found!" on an absent one, leaving the table unchanged in both cases. Otherwise the row under the id becomes the request's title, description and category, stamped with now and username, and keeps its id and owner. The size is kept and every other id is unchanged. |
| NoteStore.NoteService.Delete | src/FieldNotes.Api/Notes/NoteService.cs:52-66 | Fails with the format error, or with NotFound "Note not found!", leaving the table unchanged. Otherwise the one row under the id is gone: the table is one row shorter, the id finds nothing, and every other id is unchanged. |
| NoteStore.NoteService.GetAll | src/FieldNotes.Api/Notes/NoteService.cs:68-98 | The request's page number and size are normalised in place by the corrected IntendedPaging, and its category is kept. A malformed user id fails with the query-parameter error, the InvalidOperationException that wraps the FormatException. Otherwise the result is IntendedQueryPage: the page of selected rows newest first, with the offset computed without overflow. |
| NoteStore.NoteService.GetCategories | src/FieldNotes.Api/Notes/NoteService.cs:101-112 | A malformed user id fails with the query-parameter error. Otherwise the value c is in the result exactly when one of the user's rows has the non-empty category c, and no value is repeated. |
| NoteStore.NoteService.GetById | src/FieldNotes.Api/Notes/NoteService.cs:114-133 | A malformed id fails with the format error. A parsed id succeeds exactly when it is in the table, and otherwise fails with NotFound "Note not found". On success every field of the response is the stored row's, and the id is the row's id formatted. |
| NoteStore.CreateThenGetById | src/FieldNotes.Api/Notes/NoteService.cs:114-133 | After a successful create, looking up the text of the new id returns the created note's fields. After a failed create, the lookup reports not found. |
| NoteStore.InvalidPagingCase | src/FieldNotes.Api/Notes/NoteService.cs:70-71 | With the corrected normalisation, page 0 with size -5 against one row of the user reports page 1 and page size 10 and returns exactly that row, as the test at NoteServiceTests.cs:446-478 expects. |
| NoteQueries.IndexOf | src/FieldNotes.Api/Notes/NoteService.cs:34 | Gives the first position holding the id, and None exactly when no row has it. |
| NoteQueries.Find | src/FieldNotes.Api/Notes/NoteService.cs:34 | Gives a stored row with that id, and None exactly when no row has it. |
| NoteQueries.FindAt | src/FieldNotes.Api/Notes/NoteService.cs:34 | With unique ids, looking up the id of the row at position i gives that row. |
| NoteQueries.FindAppend | src/FieldNotes.Api/Notes/NoteService.cs:25-26 | Appending a row with a fresh id keeps ids unique. The new id finds the new row, and every other id finds what it found before. |
| NoteQueries.FindReplace | src/FieldNotes.Api/Notes/NoteService.cs:38-44 | Replacing a row by one with the same id keeps ids unique. That id finds the new row, and every other id is unchanged. |
| NoteQueries.FindRemove | src/FieldNotes.Api/Notes/NoteService.cs:59-60 | Removing the row at position i keeps ids unique. Its id finds nothing, and every other id is unchanged. |
| NoteQueries.Filter | src/FieldNotes.Api/Notes/NoteService.cs:74-81 | The result holds every element satisfying the predicate, with its multiplicity, and no other element. |
| NoteQueries.SortByLastUpdatedDesc | src/FieldNotes.Api/Notes/NoteService.cs:87 | The result is a permutation of its input, ordered by LastUpdated from newest to oldest. |
| NoteQueries.InsertKeepsOrder | src/FieldNotes.Api/Notes/NoteService.cs:87 | Inserting a row into a sequence ordered newest first keeps it ordered. |
| NoteQueries.WindowAt | src/FieldNotes.Api/Notes/NoteService.cs:88-89 | Skip then Take gives the window that starts at max(0, offset), so a negative count skips nothing. It holds min(size, remaining) rows, none when size is 0 or less, and row k of the window is row start + k of the input. |
| NoteQueries.MatchingCounts | src/FieldNotes.Api/Notes/NoteService.cs:73-82 | The filtered rows are exactly the user's rows that pass the category filter, each with its multiplicity. The filter applies only when the category is neither null nor empty, and then it demands an exact match. |
| NoteQueries.PageItems | src/FieldNotes.Api/Notes/NoteService.cs:73-98 | For any offset, every listed item is a stored row of the user that passes the filter. The items are ordered newest first, there are at most PageSize of them, and page number and size are echoed. This holds for the listing as written and as corrected. |
| NoteQueries.PageTotalCount | src/FieldNotes.Api/Notes/NoteService.cs:84-95 | With unique ids, TotalCount is the number of distinct stored rows that the user and category select, whatever the page and offset. |
| NoteQueries.QueryPageWindow | src/FieldNotes.Api/Notes/NoteService.cs:86-90 | As written, for page 1 and up, with an offset that fits an int, the items are exactly the newest-first rows from position (PageNumber - 1) * PageSize. There are min(PageSize, remaining) of them. |
| NoteQueries.NormalizedPageSizeBounds | src/FieldNotes.Api/Notes/NoteService.cs:70-71 | As written, the page size queried is always at least 1. On a page number of 1 or more, a valid size is kept and a size of 0 or less becomes 10. A page number of 0 or less makes the size 1. |
| NoteQueries.AsWrittenQueryPage | src/FieldNotes.Api/Notes/NoteService.cs:68-98 | GetAllAsync as written, from the raw page parameters. The result echoes the request as the two guards leave it: the page number unchanged and the size NormalizedPageSize. |
| NoteQueries.Wrap32 | src/FieldNotes.Api/Notes/NoteService.cs:88 | An int32 value is unchanged by the unchecked conversion. |
| NoteQueries.OffsetWithoutWrap | src/FieldNotes.Api/Notes/NoteService.cs:88 | When the product fits an int, the unchecked offset equals the mathematical one and is not negative. |
| NoteQueries.InvalidPagingAsWritten | src/FieldNotes.Api/Notes/NoteService.cs:70-71 | As written, page 0 with size -5 reports page number 0 and page size 1, not 10. With one matching row, the page holds exactly that row. |
| NoteQueries.FarPageRepeatsFirstPage | src/FieldNotes.Api/Notes/NoteService.cs:88 | As written, page 1073741825 of size 4 lists the same items as page 1. |
| NoteQueries.MinPageNumberSkipsEverything | src/FieldNotes.Api/Notes/NoteService.cs:70-90 | As written, page int.MinValue of size 10 lists nothing, while page 0 of size 10 lists exactly the newest row. |
| NoteQueries.MinPageOffset | src/FieldNotes.Api/Notes/NoteService.cs:88 | The wrapped offset of page int.MinValue at size 1 is int.MaxValue, and that of page 0 is -1. |
| NoteQueries.IntendedPaging | src/FieldNotes.Api/Notes/NoteService.cs:70-71 | The intended normalisation gives a page number and size of at least 1. Valid values are kept, a page number of 0 or less becomes 1, and a page size of 0 or less becomes 10. |
| NoteQueries.IntendedPagingMatchesTest | src/FieldNotes.Api/Notes/NoteService.cs:70-71 | On the intended listing, page 0 with size -5 reports page 1 and size 10, and its items are exactly the user's one row. |
| NoteQueries.IntendedPagesTile | src/FieldNotes.Api/Notes/NoteService.cs:86-90 | On the intended listing, the row at position k of the newest-first order is item pos of page pageNumber whenever k = (pageNumber - 1) * pageSize + pos with pos < pageSize. There is no wrap-around. |
| NoteQueries.Distinct | src/FieldNotes.Api/Notes/NoteService.cs:108 | The result has the same members as its input and no repeats. |
| NoteQueries.CategoryValuesExact | src/FieldNotes.Api/Notes/NoteService.cs:103-107 | A value is selected exactly when one of the user's rows has it as a non-empty category. |
| NoteQueries.CategoriesOfExact | src/FieldNotes.Api/Notes/NoteService.cs:103-111 | The category list holds exactly the non-empty categories the user's rows use, each once. |
| NoteQueries.CategoriesOfEmpty | src/FieldNotes.Api/Notes/NoteService.cs:103-111 | When none of the user's rows has a category that is neither null nor empty, the list is empty. |
| Credentials.ValidateCredentialRequest | src/FieldNotes.Api/Users/UsersController.cs:36-56 | A registration whose email is null, empty or outside 3..255 code units fails on the email first. Otherwise a username outside 3..20 fails on the username, and then a password outside 6..20 fails on the password. A login has no email check. Each outcome holds exactly under its condition. |
| Credentials.Utf16Length | src/FieldNotes.Api/Users/UsersController.cs:41-54 | String.Length counts at least one and at most two code units per character. |
| Credentials.Utf16LengthAppend | src/FieldNotes.Api/Users/UsersController.cs:41-54 | The code-unit lengths of two strings add up under concatenation. |
| Credentials.Utf16LengthBmp | src/FieldNotes.Api/Users/UsersController.cs:41-54 | A string of Basic Multilingual Plane characters has one code unit per character. |
| Credentials.BmpWithinBounds | src/FieldNotes.Api/Users/UsersController.cs:46-55 | For Basic Multilingual Plane text, a field passes exactly when its character count is within the bounds. |
| Credentials.AcceptedLengths | src/FieldNotes.Api/Users/UsersController.cs:36-56 | An accepted request has a username of 2 to 20 characters and a password of 3 to 20. An accepted registration also has an email of 2 to 255 characters. |
| Credentials.LoginLikeRegister | src/FieldNotes.Api/Users/UsersController.cs:38-55 | A login is judged as a registration with the same username, the same password and a valid email would be. |
| Credentials.MessageText | src/FieldNotes.Api/Users/UsersController.cs:43-55 | With the bounds interpolated from the constants, the messages are "Email must be valid!", "Username must be between 3 and 20 characters long!" and "Password must be between 6 and 20 characters long!". |
| Credentials.MessagesIdentifyError | src/FieldNotes.Api/Users/UsersController.cs:43-55 | Two errors have the same message exactly when they are the same error, so the message tells which check rejected the request. |

## Left out

- Asynchrony, `SaveChangesAsync` and Entity Framework change tracking are not modelled. Each operation is one atomic step on the table, and concurrent requests are not modelled.
- The entities are values. `UpdateAsync` returns the tracked entity, so a caller's reference to an earlier result is not aliased by the model.
- The internals of `Guid` are not modelled. Parsing and formatting are oracles, and "not in the table" is the only property of `Guid.NewGuid` used.
- The clock is not modelled: `DateTimeOffset.UtcNow` is a parameter, and timestamps are integers.
- Database constraints beyond the primary key are not modelled. These include the required `Title`, the foreign key to `User`, and collation, so categories compare as exact character sequences.
- Skip and Take: the query has the LINQ to Objects meaning of the in-memory provider, under which a negative Skip count skips nothing. Translation to SQL for the application's PostgreSQL provider is not modelled. There a negative OFFSET is an error, so the as-written listing of a page number of 0 or less fails instead of returning rows.
- Overflow of `CountAsync` beyond int is not modelled. TotalCount is an unbounded integer.
- SortByLastUpdatedDesc: the statement proves that the result is a permutation of its input and is ordered. It does not prove that ties keep the table's order, although the insertion sort does keep it, and the order a real database gives to equal timestamps is not modelled.
- Utf16Length: Dafny characters are Unicode scalar values, so unpaired surrogates in a string are not modelled.
- The rest of the application is not part of this model. This covers the controllers other than the credential check, UserService, TokenProvider, password hashing, authentication and the user interface.
- Wrap32: its contract states only that an int32 value is unchanged. That the result is congruent to its argument modulo 2^32 is stated by its body and not repeated as a contract.
- NoteStore.NoteService.GetAll: uses the corrected paging of the two findings below, not the code as written. The listing as written is kept as AsWrittenQueryPage (built from NormalizedPageSize, SkipOffset and QueryPage), and the lemmas about it exhibit the difference.

## Findings

| source | as written | input that shows it | evidently intended | confidence | as-written member | corrected member |
|---|---|---|---|---|---|---|
| src/FieldNotes.Api/Notes/NoteService.cs:71 | A page number of 0 or less sets `PageSize` to 1 and leaves the page number as it is. | PageNumber 0, PageSize -5, with one row of the user, on the tests' in-memory provider: the result reports PageSize 1 and PageNumber 0. NoteServiceTests.cs:446-478 expects PageSize 10. | A page number of 0 or less becomes 1, and the page size normalisation is kept. | not executed | NoteQueries.InvalidPagingAsWritten | NoteQueries.IntendedPagingMatchesTest |
| src/FieldNotes.Api/Notes/NoteService.cs:88 | `(PageNumber - 1) * PageSize` is computed in unchecked int arithmetic and wraps. | PageNumber 1073741825, PageSize 4: the offset wraps to 0 and page 1 is repeated. PageNumber int.MinValue: the offset becomes int.MaxValue and the page is empty. | The offset is computed without overflow, so page p starts at row (p - 1) * size. | not executed | NoteQueries.FarPageRepeatsFirstPage | NoteQueries.IntendedPagesTile |
