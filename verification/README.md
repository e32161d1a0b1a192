# Library management: a Dafny model of the table logic

The application is a small Flask site for a school library. Students register, log in, search
the catalog and list their loans. A librarian logs in, adds books, issues and takes back copies,
and reads a dashboard. All state lives in three tables: books, issued-book records and students.
Every request reads whole tables, filters or updates rows, and writes the tables back.

This project models that table logic as pure functions over a `Library` value
`(books, issued, students)`. Each table is a sequence of immutable row records in table order.
Each state-changing operation returns either the new `Library` or an `Error`: `DuplicateKey`,
`NotFound`, `Unavailable`, `InvalidCredentials` or `UnknownSearchType`. A failed request leaves
the tables as they were.

Modules, in dependency order:

- `Wrappers`: `Option` and `Result`.
- `Sequences`: boolean-mask filtering (`Filter`), column rewrites (`Map`) and first-row lookup
  (`FirstIndex`), with the lemmas that relate them.
- `Records`: the row types `Book`, `IssuedRecord`, `Student` and `Library`, plus the shared
  masks. A record is outstanding while its `Return_Date` is the empty string.
- `Text`: case-insensitive literal substring matching (ASCII lower-casing).
- `StudentIds`: decimal parsing, zero padding and the `STU###` id format.
- `Catalog`: `add_book` and the search page.
- `Circulation`: `issue_book` and `return_book`.
- `Identity`: id generation, registration, student login and librarian login. The password
  hash is passed in as a `Hasher` value.
- `Views`: "my books", the issue page's available books, the return page's outstanding loans,
  and the dashboard figures.
- `Invariant`: the circulation and registry invariants, their preservation by every operation,
  and the dashboard bound they imply.
- `Requests`: the state-changing handlers as one state machine, with preservation of the
  invariant over any sequence of requests.
- `Scenarios`: the tables `init_files` creates, the "gatsby" search, a lend-and-return round
  trip, and the double-loan return.

The central property is the circulation invariant. For every book:
`0 <= Available_Copies` and `Available_Copies + (outstanding loans of its Book_ID) <= Total_Copies`.
It is proved together with two supporting facts: Book_IDs are unique, and every outstanding loan
names a book in the table. Add-book with a non-negative count preserves it, and so do issue and
return (with a non-empty return date) and registration.

Two behaviours of the code are modelled exactly as written:

- Return stamps the date on every outstanding record of the (Book_ID, Student_ID) pair.
  It still adds only one copy back. `Circulation.TwoLoansOneReturn` shows the effect: two loans
  to one student, then one return, close both loans but leave the book one copy short.
- Issue and return change every books row that carries the Book_ID. The issue guard, though,
  checks only the first such row.

Behaviours of the code worth knowing:

- An empty search query gives no result set (`None`), not an empty list.
- A non-empty query with a search type other than title, author or book_id leaves `results`
  as `None`, so `results.to_dict` raises; the model reports it as an error.
- Student login looks only at the first row with the email.

## Model

| member | source | states |
|---|---|---|
| Catalog.AddBook | app.py:242-251 | A Book_ID already present fails with DuplicateKey. Otherwise exactly one row is appended with Total = Available = the given count, and all existing rows and the other tables are unchanged. |
| Catalog.Search | app.py:163-173 | An empty query yields no result set. A non-empty query on an unknown type is an error. Otherwise the result holds exactly the rows whose chosen column contains the query (case ignored), each as often as in the table. |
| Catalog.SearchKeepsTableOrder | app.py:167-173 | Results keep table order: searching `a + b` yields the results of `a` followed by those of `b`. |
| Catalog.SearchIgnoresQueryCase | app.py:167-171 | The search gives the same answer for a query and its lower-cased form. |
| Circulation.IssueBook | app.py:267-289 | Fails with NotFound iff no row has the Book_ID. Fails with Unavailable iff the first such row has no copy available. Otherwise every row with that id loses one available copy, other rows are unchanged, and one outstanding record is appended with the first row's title and the given (unchecked) student. |
| Circulation.ReturnBook | app.py:308-322 | Fails with NotFound iff no outstanding record matches the (book, student) pair. Otherwise every matching record gets the return date, other records are unchanged, and every row with the Book_ID gains exactly one copy. |
| Circulation.IssueOpensOneLoan | app.py:278-289 | An issue adds exactly one outstanding loan of the issued book and none of any other book. |
| Circulation.ReturnClosesLoans | app.py:312-321 | A return with a real date strictly lowers the outstanding loans of the returned book and keeps those of every other book. |
| Circulation.ReturnLeavesNoLoanOfPair | app.py:312-317 | After a return, no outstanding loan of the pair is left. |
| Circulation.IssueThenReturn | app.py:267-322 | Issue then return, for a student with no outstanding loan of the book, restores the books table exactly. The issued table keeps the new record, stamped with the return date. |
| Circulation.TwoLoansOneReturn | app.py:312-321 | Two issues of a book to one student followed by one return close both loans. The book ends one copy below its availability before the loans. |
| Identity.GenerateStudentId | app.py:70-76 | An empty table yields "STU001". Otherwise the id is "STU" plus (counter of the last row's id + 1), with at least three digits, no extra leading zero and no truncation. |
| Identity.Register | app.py:92-110 | A registered email fails with DuplicateKey. Otherwise one row is appended with the generated id and `hash(salt, password)` in the password column, and all other rows and tables are unchanged. |
| Identity.StudentLogin | app.py:123-126 | Succeeds iff the first row with the email has a stored hash that verifies against the password, and then yields that row. |
| Identity.LibrarianCredentialsOnly | app.py:197 | Librarian login succeeds iff the username is exactly "admin" and the password exactly "admin123". |
| Identity.RegisterThenLogin | app.py:103-126 | After a successful registration, login with the same email and password succeeds and yields the new row, given a hash that verifies its own passwords. |
| Identity.NextIdFollows | app.py:70-76 | When row `i` holds the id `STU` + counter `i + 1` zero-padded to three digits, the next generated id is the one for counter (number of rows + 1). |
| Identity.RegisterKeepsIdsSequential | app.py:70-76 | If the ids are STU001, STU002, ... in row order (row `i` holds `FormatId(i + 1)`), they stay so after a registration. |
| StudentIds.FormatIdRoundTrip | app.py:75-76 | Printing a counter with the `STU{n:03d}` format and parsing the digits back gives the counter again. The printed id has at least three digits and a leading zero only as padding. |
| StudentIds.FormatIdInjective | app.py:76 | Different counters give different ids. |
| Views.MyBooks | app.py:186 | Exactly the records with the student's id, outstanding or returned, each as often as in the table. |
| Views.MyBooksKeepsTableOrder | app.py:186 | The list keeps table order: the list over `a + b` is the list over `a` followed by the list over `b`. |
| Views.AvailableBooks | app.py:295 | Exactly the books with `Available_Copies > 0`, each as often as in the table. |
| Views.AvailableBooksKeepsTableOrder | app.py:295 | The issue page's list keeps table order over a concatenated table. |
| Views.CurrentlyIssued | app.py:330 | Exactly the outstanding records, each as often as in the table. |
| Views.CurrentlyIssuedKeepsTableOrder | app.py:330 | The return page's list keeps table order over a concatenated table. |
| Views.Dashboard | app.py:221-227 | The book and student figures are the row counts of their tables, and the two copy figures are the column sums of Total_Copies and Available_Copies. The issued-books figure counts the outstanding records: it equals the length of the return page's list and never exceeds the issued table's length. An empty books table has zero copies. |
| Views.SumsSnoc | app.py:223-224 | Appending a row adds its Total_Copies and Available_Copies to the two column sums. |
| Views.SumsConcat | app.py:223-224 | The column sums of two concatenated tables are the sums of their column sums. |
| Views.IssueExtendsMyBooks | app.py:186 | An issue appends the new loan to the borrower's list and leaves every other student's list unchanged. |
| Views.MyBooksAfterReturn | app.py:186 | A return does not remove anything from a student's list: the list after it is the old list with the returned loans stamped. |
| Invariant.ValidBoundsAvailability | app.py:274-278 | In a valid state every book has `0 <= Available <= Total`. |
| Invariant.AddBookPreservesValid | app.py:245-251 | Adding a book with a non-negative count preserves the invariants. |
| Invariant.IssuePreservesValid | app.py:270-289 | Issuing preserves the invariants. |
| Invariant.ReturnPreservesValid | app.py:312-322 | Returning with a non-empty date preserves the invariants, although all matching loans close while one copy comes back. |
| Invariant.RegisterPreservesValid | app.py:95-110 | Registering preserves the invariants, including sequential ids and unique emails. |
| Invariant.ValidLoginRowIsOnlyRow | app.py:124-126 | With unique emails, the first row with an email is the only one, so login needs no tie-break. |
| Invariant.AddBookRaisesDashboard | app.py:221-227 | A successful add_book of `n` copies adds one title and `n` copies to both copy figures, and leaves the issued and student figures unchanged. |
| Invariant.DashboardBounded | app.py:221-227 | In a valid state the dashboard's available copies are non-negative, and available copies plus issued books never exceed total copies. |
| Invariant.IssueSucceedsIffListed | app.py:270-295 | With unique Book_IDs, an issue succeeds iff the issue page lists a book with that id. |
| Invariant.ReturnSucceedsIffListed | app.py:312-330 | A return succeeds iff the return page lists an outstanding loan of that pair. |
| Requests.HandlePreservesValid | app.py:231-330 | Any one admissible state-changing request, whether it succeeds or fails, leaves a valid state valid. |
| Requests.RunPreservesValid | app.py:231-330 | Every state reached from a valid state by admissible requests is valid. |
| Scenarios.SampleIsValid | app.py:25-47 | The tables `init_files` creates are valid, and the sample student can log in with "student123". |
| Scenarios.SearchGatsby | app.py:165-167 | A title search for "gatsby" over the sample books finds "The Great Gatsby" and nothing else. |
| Scenarios.DuneRoundTrip | app.py:242-322 | On the sample tables: add "Dune" with 2 copies. A search for "B010" finds only it, with 2 available. Issuing it to an unregistered student leaves 1 copy and one outstanding record. Returning it restores 2 copies and stamps the record. |

## Left out

- HTTP plumbing: routing, sessions, flash messages, redirects, templates, GET pages and logout.
  `view_issued` and `view_students` only dump whole tables, so they have no logic to model.
- Persistence to Excel files (`read_*`, `write_*`, `init_files`). The rows `init_files` writes
  appear as `Scenarios.SampleLibrary`. A file round trip can turn an empty `Return_Date` into
  NaN. The model keeps the in-memory representation, where the empty string marks an
  outstanding loan.
- Password hashing (werkzeug) is a foreign library. It is the `Hasher` parameter: `hash(salt, password)` with the random salt passed in, and `check(stored, password)`. Lemmas that need the two to agree assume `Sound(h)`.
- The clock: issue, return and registration dates are parameters. Preserving the invariant needs a non-empty return date, which is what the clock always produces.
- Catalog.Search: the query is treated as a literal string. It must be ASCII and free of regular-expression metacharacters (`IsLiteralPattern`), and lower-casing is ASCII-only. Regex queries and Unicode case folding (for example the Kelvin sign matching `k`) are not modelled. Non-string cells that pandas skips with `na=False` are not modelled either, because every column is a string here.
- Identity.GenerateStudentId: requires the last id to be three characters followed by ASCII digits. For an email not yet registered, any other shape makes `int()` raise inside the handler, so no state changes; `Requests.Handle` leaves the state as it was. A registered email is refused before the id is parsed, so `Identity.Register` accepts any last id in that case. The extra forms `int()` accepts (signs, spaces, underscores, non-ASCII digits) are not modelled.
- Parsing of form fields: a missing field (`None`) and a non-numeric copy count are not modelled. `add_book` does not reject a negative count, so the invariant lemmas assume a non-negative one (`Requests.Admissible`).
- Concurrency: simultaneous read-modify-write requests can lose updates. The code makes no attempt to prevent this, so there is nothing to verify.
