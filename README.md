# Apartment library: the loan engine and its rules, in Dafny

This project models the core of a small library service run for a residential
complex. Librarians register books and resident borrowers. Residents borrow
books and return them. A sweep, run on demand when a librarian calls the
update-overdue endpoint, marks late loans overdue, and returns are fined per
day late.

The model covers five parts of the backend:

- The apartment-code parser. It reads codes such as `a101` or ` B2503 `: a wing
  A–D, a floor 1–27 and a unit 1–4. It normalises them to a five-character
  canonical code.
- The date and fine helpers, over calendar day numbers.
- The book service: create, update, delete and lookup.
- The borrower service: create, update, delete, lookup, and the number of
  books an apartment has out.
- The transaction service: borrow, return, lookup and the overdue sweep.

Structure:

- `records.dfy` (`Records`): the row types, errors and settings.
- `dates.dfy` (`DateUtils`): the date and fine helpers.
- `apartment.dfy` (`ApartmentValidator`): the parser, as pure functions and lemmas.
- `database.dfy` (`Database`): the store.
  - `Tables` is the value of all tables at one moment. Each table is a map
    from row id to row, and each table has its own fresh-id counter.
  - `Library` is a class whose fields are those tables. It also keeps a ghost
    append-only audit trail.
- `book_service.dfy`, `borrower_service.dfy`, `transaction_service.dfy`: one
  module per service. Each service operation appears twice:
  - a pure specification function `<Op>Spec(t, …)`, which returns the result
    together with the tables it leaves behind;
  - a method on the shared `Library`. The method updates the maps in place and
    is proved to return that result and to leave those tables.
- The lemmas state what the operations promise together:
  - the availability rule (a book has at most one open loan, and is available
    exactly when it has none);
  - the per-apartment borrowing limit;
  - borrow-then-return, return twice, and sweep twice;
  - stored apartment codes stay canonical;
  - no two active residents share an apartment and a name.

The apartment limit counts only loans whose status is still `borrowed`
(`backend/src/services/borrowerService.ts:292-302`). So a loan the sweep has
marked `overdue` no longer uses up one of the apartment's slots;
`TransactionService.SweepFreesApartmentSlots` proves this consequence.

## Model

| member | source | states |
|---|---|---|
| Records.AppError.Status | backend/src/services/transactionService.ts:14-151 | not-found errors are 404 (as at lines 143-151), every business-rule error is 400 (as at lines 16, 22, 37-40 and 98, and in borrowerService.ts and bookService.ts) |
| Records.NullIfEmpty | backend/src/services/bookService.ts:23 | an empty or missing optional text is stored as NULL, any other text as itself |
| Database.Library.constructor | backend/src/config/initDatabase.ts:6-45 | an empty store satisfies the id discipline and the availability rule |
| Database.Library.LogAudit | backend/src/middleware/auditLogger.ts:16-48 | a stored audit entry is appended; a failed insert is swallowed and changes nothing |
| DateUtils.CalculateDaysDifference | backend/src/utils/dateUtils.ts:9-13 | the distance between two days, in either order; zero exactly on the same day |
| DateUtils.AddDays | backend/src/utils/dateUtils.ts:3-7 | the result lies exactly `days` days from the start, not earlier for non-negative `days` and earlier for negative ones |
| DateUtils.OverdueFromTheDayAfterDue | backend/src/utils/dateUtils.ts:15-21 | isOverdue: a loan is not overdue on its due day, is overdue from the next day, and stays overdue |
| DateUtils.CalculateOverdueDays | backend/src/utils/dateUtils.ts:23-32 | zero exactly when not overdue, otherwise at least 1 and the days from due day to today |
| DateUtils.CalculateFine | backend/src/utils/dateUtils.ts:34-37 | no fine up to the due day; after it, days late times the daily rate |
| DateUtils.DaysDifferenceIsSymmetric | backend/src/utils/dateUtils.ts:9-13 | the day difference does not depend on argument order |
| DateUtils.NoFineWithinLoanPeriod | backend/src/utils/dateUtils.ts:15-37 | a loan returned by its due day is not overdue and has no fine |
| DateUtils.FineGrowsByRatePerDay | backend/src/utils/dateUtils.ts:34-37 | each further day late adds exactly one daily rate |
| DateUtils.FineIsMonotonic | backend/src/utils/dateUtils.ts:34-37 | returning later never lowers the fine |
| DateUtils.FineExample | backend/src/utils/dateUtils.ts:34-37 | ten days late at 5 a day is 50; on the due day it is 0 |
| DateUtils.CalculateFineAsWritten | backend/src/utils/dateUtils.ts:15-37 | as written, with the server's UTC offset: no fine exactly when not overdue or the rate is 0 |
| DateUtils.AsWrittenAgreesEastOfUtc | backend/src/utils/dateUtils.ts:15-37 | at or east of UTC the code as written agrees with the intended overdue test and fine |
| DateUtils.AsWrittenShiftsWestOfUtc | backend/src/utils/dateUtils.ts:15-37 | west of UTC the code as written treats a loan as overdue from its due day and fines it as if due a day earlier |
| DateUtils.DueDayFinedWestOfUtc | backend/src/utils/dateUtils.ts:15-37 | at UTC-5 a loan returned on its due day is fined one day as written, and nothing under the intended rule |
| ApartmentValidator.TrimStartDropsLeadingWhitespace | backend/src/utils/apartmentValidator.ts:15 | trimming the start removes exactly the leading whitespace |
| ApartmentValidator.TrimEndDropsTrailingWhitespace | backend/src/utils/apartmentValidator.ts:15 | trimming the end removes exactly the trailing whitespace |
| ApartmentValidator.ParseInt | backend/src/utils/apartmentValidator.ts:26-27 | one digit reads below 10, two digits below 100 |
| ApartmentValidator.NatToString | backend/src/utils/apartmentValidator.ts:39 | `toString()` gives decimal digits; one digit exactly below 10 |
| ApartmentValidator.PadStart2 | backend/src/utils/apartmentValidator.ts:39 | `padStart(2, '0')` keeps strings of length two or more and left-fills shorter ones with zeros |
| ApartmentValidator.TwoDigits | backend/src/utils/apartmentValidator.ts:39 | a number below 100, written and padded, is two digits that read back as the number |
| ApartmentValidator.TwoDigitStringIsPadded | backend/src/utils/apartmentValidator.ts:26-39 | any two digits are the padded writing of their own value |
| ApartmentValidator.FormatApartment | backend/src/utils/apartmentValidator.ts:53-55 | for floor and unit below 100 the code is the wing plus four characters |
| ApartmentValidator.FormatApartmentDecodes | backend/src/utils/apartmentValidator.ts:53-55 | the formatted code starts with the wing, and its two digit pairs read back as floor and unit |
| ApartmentValidator.MatchPattern | backend/src/utils/apartmentValidator.ts:18-23 | `/^([A-D])(\d{1,2})(\d{2})$/` matches exactly a wing letter followed by 3 or 4 digits; the unit group is the last two digits |
| ApartmentValidator.MatchIsASpelling | backend/src/utils/apartmentValidator.ts:18-27 | a matched string is a spelling of the apartment its groups denote |
| ApartmentValidator.ParseApartmentNumber | backend/src/utils/apartmentValidator.ts:13-47 | an accepted code is in range and comes back in canonical five-character form |
| ApartmentValidator.ParseAcceptsEverySpelling | backend/src/utils/apartmentValidator.ts:13-47 | every spelling of an in-range apartment parses to its canonical record |
| ApartmentValidator.ParseIsSound | backend/src/utils/apartmentValidator.ts:13-47 | whatever parses was a spelling of the apartment it parsed to |
| ApartmentValidator.ParseCharacterization | backend/src/utils/apartmentValidator.ts:13-47 | parsing yields a record exactly when it is the canonical record of an in-range apartment that the cleaned input spells |
| ApartmentValidator.ValidateApartmentNumber | backend/src/utils/apartmentValidator.ts:49-51 | holds exactly when parsing yields a record |
| ApartmentValidator.ValidateAcceptsExactlySpellings | backend/src/utils/apartmentValidator.ts:49-51 | validation holds exactly for inputs whose cleaned form spells an in-range apartment |
| ApartmentValidator.CleanKeepsCode | backend/src/utils/apartmentValidator.ts:15 | a capital letter followed by digits is already clean |
| ApartmentValidator.ParseIsIdempotent | backend/src/utils/apartmentValidator.ts:39-46 | re-parsing the canonical code gives back the same record |
| ApartmentValidator.FormatAgreesWithParse | backend/src/utils/apartmentValidator.ts:53-55 | `formatApartmentNumber` of the parsed components rebuilds the parsed code |
| ApartmentValidator.TrimStartSkipsWhitespace | backend/src/utils/apartmentValidator.ts:15 | leading whitespace does not survive trimming |
| ApartmentValidator.TrimEndSkipsWhitespace | backend/src/utils/apartmentValidator.ts:15 | trailing whitespace does not survive trimming |
| ApartmentValidator.TrimStartAppend | backend/src/utils/apartmentValidator.ts:15 | trimming the start of a concatenation |
| ApartmentValidator.ParseIgnoresSurroundingWhitespace | backend/src/utils/apartmentValidator.ts:15 | surrounding whitespace does not change the parse |
| ApartmentValidator.UpperCharKeepsWhitespace | backend/src/utils/apartmentValidator.ts:15 | upper-casing keeps whitespace and is idempotent per character |
| ApartmentValidator.TrimStartUpper | backend/src/utils/apartmentValidator.ts:15 | trimming the start commutes with upper-casing |
| ApartmentValidator.TrimEndUpper | backend/src/utils/apartmentValidator.ts:15 | trimming the end commutes with upper-casing |
| ApartmentValidator.TrimUpper | backend/src/utils/apartmentValidator.ts:15 | trimming commutes with upper-casing |
| ApartmentValidator.UpperIsIdempotent | backend/src/utils/apartmentValidator.ts:15 | upper-casing twice is upper-casing once |
| ApartmentValidator.TrimDropsSurroundingWhitespace | backend/src/utils/apartmentValidator.ts:15 | trim leaves no whitespace on either end and removes only whitespace around the input |
| ApartmentValidator.UpperCaseMapsAsciiLetters | backend/src/utils/apartmentValidator.ts:15 | toUpperCase keeps the length, capitalises each lower-case ASCII letter and keeps every other character |
| ApartmentValidator.CleanIsTrimmedUpperCase | backend/src/utils/apartmentValidator.ts:15 | the cleaned input has no surrounding whitespace and no lower-case ASCII letter, and cleaning is idempotent |
| ApartmentValidator.CleanIgnoresCase | backend/src/utils/apartmentValidator.ts:15 | cleaning an upper-cased input gives the same as cleaning the input |
| ApartmentValidator.ParseIgnoresCase | backend/src/utils/apartmentValidator.ts:15 | case does not change the parse |
| ApartmentValidator.ExampleA101 | backend/src/utils/apartmentValidator.ts:1-4 | `A101` is wing A, floor 1, unit 1, stored as `A0101` |
| ApartmentValidator.ExampleB2503 | backend/src/utils/apartmentValidator.ts:1-4 | `B2503` is wing B, floor 25, unit 3 |
| ApartmentValidator.ExampleBadWing | backend/src/utils/apartmentValidator.ts:18-23 | a wing outside A–D is rejected |
| ApartmentValidator.ExampleFloorTooHigh | backend/src/utils/apartmentValidator.ts:30-32 | floor 28 is rejected |
| ApartmentValidator.ExampleTooLong | backend/src/utils/apartmentValidator.ts:18-23 | five digits do not match |
| ApartmentValidator.ExampleUnitOutOfRange | backend/src/utils/apartmentValidator.ts:34-36 | units 0 and 5 are rejected |
| BookService.FieldIndex | backend/src/services/bookService.ts:54 | each updatable column sits at its own position in the field list |
| BookService.SetField | backend/src/services/bookService.ts:56-61 | one `field = ?` writes that column and keeps every other one |
| BookService.ApplyPatchFollowsPatch | backend/src/services/bookService.ts:54-73 | the updated row takes exactly the supplied columns and keeps the rest |
| BookService.FollowsPatchDeterminesRow | backend/src/services/bookService.ts:54-73 | the supplied columns and the old row determine the updated row |
| BookService.CollectBookUpdates | backend/src/services/bookService.ts:51-65 | the loop collects exactly the supplied columns, in list order; none collected exactly when nothing is supplied; the row follows the request |
| BookService.GetBookById | backend/src/services/bookService.ts:117-125 | the row when it exists, otherwise a 404 |
| BookService.CreateBookSpec | backend/src/services/bookService.ts:7-45 | a new available, never-borrowed book under a fresh id, with empty optional texts stored as NULL and copy number 1 by default; nothing else changes |
| BookService.UpdateBookSpec | backend/src/services/bookService.ts:47-89 | 404 for a missing book, 400 exactly when nothing is supplied, otherwise only that row changes, as the request says |
| BookService.DeleteBookSpec | backend/src/services/bookService.ts:91-115 | 404 for a missing book, 400 exactly while a `borrowed` loan refers to it, otherwise only that row is removed |
| BookService.CreateBook | backend/src/services/bookService.ts:7-45 | the store afterwards and the returned row are those of CreateBookSpec; the audit entry is appended when stored |
| BookService.UpdateBook | backend/src/services/bookService.ts:47-89 | result and store are those of UpdateBookSpec; audited only on success |
| BookService.DeleteBook | backend/src/services/bookService.ts:91-115 | result and store are those of DeleteBookSpec; audited only on success |
| BookService.CreateBookKeepsLoansConsistent | backend/src/services/bookService.ts:19-24 | creating a book keeps the availability rule |
| BookService.DeleteBookKeepsLoansConsistent | backend/src/services/bookService.ts:91-104 | deleting a book keeps the availability rule |
| BookService.UpdateBookKeepsLoansConsistent | backend/src/services/bookService.ts:54-73 | an update that leaves `is_available` alone keeps the availability rule |
| BookService.UpdateBookCanReleaseALentBook | backend/src/services/bookService.ts:54-73 | an update setting `is_available` on a lent book breaks the rule |
| BorrowerService.GetBorrowerById | backend/src/services/borrowerService.ts:166-174 | the row when it exists, otherwise a 404 |
| BorrowerService.GetApartmentBorrowCount | backend/src/services/borrowerService.ts:292-302 | the count is bounded by the loans and is zero exactly when no `borrowed` loan belongs to a resident of the apartment |
| BorrowerService.NoBorrowedLoanMeansEmpty | backend/src/services/borrowerService.ts:292-302 | the apartment's set of `borrowed` loans is empty exactly when no such loan exists |
| BorrowerService.CreateBorrowerSpec | backend/src/services/borrowerService.ts:8-58 | 400 exactly for an apartment the parser rejects, then 400 exactly for an active namesake in the normalised apartment; otherwise a new active row with the parser's four apartment columns; nothing else changes |
| BorrowerService.FieldIndex | backend/src/services/borrowerService.ts:67-110 | each checked field has its own position in the check order |
| BorrowerService.Columns | backend/src/services/borrowerService.ts:67-110 | the columns a field pushes are exactly those it owns; the apartment pushes four |
| BorrowerService.SetField | backend/src/services/borrowerService.ts:67-110 | one check's assignments write that field and keep every other one |
| BorrowerService.ApplyBorrowerPatchFollowsPatch | backend/src/services/borrowerService.ts:67-122 | the updated row takes exactly the supplied fields, with the apartment as parsed |
| BorrowerService.FollowsBorrowerPatchDeterminesRow | backend/src/services/borrowerService.ts:67-122 | the supplied fields and the old row determine the updated row |
| BorrowerService.NoColumnsMeansEmptyPatch | backend/src/services/borrowerService.ts:112-114 | no column collected exactly when the request supplies nothing |
| BorrowerService.CollectBorrowerUpdates | backend/src/services/borrowerService.ts:64-114 | the pushes collect exactly the columns of the supplied fields; none exactly when nothing is supplied; the row follows the request |
| BorrowerService.UpdateBorrowerSpec | backend/src/services/borrowerService.ts:60-138 | 404 for a missing borrower, 400 exactly for an apartment the parser rejects, 400 exactly for an empty request, otherwise only that row changes, as the request says |
| BorrowerService.DeleteBorrowerSpec | backend/src/services/borrowerService.ts:140-164 | 404 for a missing borrower, 400 exactly while one of its loans is `borrowed`, otherwise only that row is removed |
| BorrowerService.CreateBorrower | backend/src/services/borrowerService.ts:8-58 | result and store are those of CreateBorrowerSpec; audited only on success |
| BorrowerService.UpdateBorrower | backend/src/services/borrowerService.ts:60-138 | result and store are those of UpdateBorrowerSpec; audited only on success |
| BorrowerService.DeleteBorrower | backend/src/services/borrowerService.ts:140-164 | result and store are those of DeleteBorrowerSpec; audited only on success |
| BorrowerService.CreateBorrowerKeepsApartmentsCanonical | backend/src/services/borrowerService.ts:12-37 | after a create, every stored apartment still parses to its own row's columns |
| BorrowerService.StoringCanonicalRowKeepsApartmentsCanonical | backend/src/services/borrowerService.ts:32-37 | storing a canonical row keeps all rows canonical |
| BorrowerService.PatchedRowIsCanonical | backend/src/services/borrowerService.ts:72-85 | an update that re-parses the apartment leaves the row's four columns consistent |
| BorrowerService.UpdateBorrowerKeepsApartmentsCanonical | backend/src/services/borrowerService.ts:72-85 | after an update, every stored apartment still parses to its own row's columns |
| BorrowerService.CreateBorrowerKeepsActiveNamesUnique | backend/src/services/borrowerService.ts:22-30 | a create never adds a second active resident of the same name to an apartment |
| TransactionService.GetTransactionById | backend/src/services/transactionService.ts:143-151 | the row when it exists, otherwise a 404 |
| TransactionService.BorrowSpec | backend/src/services/transactionService.ts:10-89 | each check fails exactly when the earlier ones pass and it does not, with nothing changed; on success a `borrowed` loan due `due_date_days` later is inserted, the book made unavailable and its counter raised by one |
| TransactionService.ClosedLoan | backend/src/services/transactionService.ts:101-118 | the returned row: status `returned`, returned today, fined only when late, at the daily rate per day late; new notes only when non-empty |
| TransactionService.MarkAvailable | backend/src/services/transactionService.ts:121 | the book, if still present, becomes available; no other book changes |
| TransactionService.ReturnSpec | backend/src/services/transactionService.ts:91-141 | 404 for an unknown loan and 400 for a returned one, with nothing changed; otherwise the loan is closed and its book made available; the result is a 404 over the committed return when the book or borrower is gone |
| TransactionService.SweepSpec | backend/src/services/transactionService.ts:229-242 | exactly the `borrowed` loans past due become `overdue`, nothing else changes, and the result is the number of changed rows |
| TransactionService.BorrowBook | backend/src/services/transactionService.ts:10-89 | result and store are those of BorrowSpec; audited only on success |
| TransactionService.ReturnBook | backend/src/services/transactionService.ts:91-141 | result and store are those of ReturnSpec; audited only when the whole call succeeds |
| TransactionService.UpdateOverdueStatuses | backend/src/services/transactionService.ts:229-242 | the store and count are those of SweepSpec |
| TransactionService.SameOpenLoansSameStatus | backend/src/services/transactionService.ts:229-235 | moving loans between open statuses keeps each book's open-loan status |
| TransactionService.SameOpenLoansKeepRule | backend/src/services/transactionService.ts:229-235 | moving loans between open statuses keeps the availability rule |
| TransactionService.BorrowKeepsLoansConsistent | backend/src/services/transactionService.ts:14-62 | a borrow keeps the availability rule |
| TransactionService.ReturnKeepsLoansConsistent | backend/src/services/transactionService.ts:97-121 | a return keeps the availability rule |
| TransactionService.SweepKeepsLoansConsistent | backend/src/services/transactionService.ts:229-242 | the sweep keeps the availability rule |
| TransactionService.ReturnTwiceRejected | backend/src/services/transactionService.ts:97-99 | a second return of the same loan fails with 400 and changes nothing |
| TransactionService.SweepIsIdempotent | backend/src/services/transactionService.ts:229-242 | a second sweep on the same day changes nothing and reports 0 |
| TransactionService.BorrowAddsOneToApartmentCount | backend/src/services/transactionService.ts:26-62 | a borrow raises the borrower's apartment count by one and no other |
| TransactionService.BorrowStaysWithinLimit | backend/src/services/transactionService.ts:26-41 | after a successful borrow the apartment is at most at its limit |
| TransactionService.ReturnTakesOneFromApartmentCount | backend/src/services/transactionService.ts:113-118 | returning a `borrowed` loan lowers its apartment's count by one; returning an overdue loan changes no count |
| TransactionService.SweepFreesApartmentSlots | backend/src/services/transactionService.ts:229-235 | the sweep never raises a count, and lowers it for an apartment whose loan turned overdue |
| TransactionService.SweepRemovesDueLoans | backend/src/services/transactionService.ts:229-235 | after the sweep an apartment's `borrowed` loans are the old ones minus those past due |
| TransactionService.BorrowThenReturnFreesBook | backend/src/services/transactionService.ts:62-121 | borrowing then returning succeeds and leaves the book available, without open loan, borrowed once more |
| TransactionService.BorrowThenReturnClosesOneLoan | backend/src/services/transactionService.ts:54-118 | borrowing then returning adds exactly one returned loan for the book, free when returned by the due day |
| TransactionService.BorrowThenReturnRestoresApartmentCount | backend/src/services/transactionService.ts:26-121 | borrowing then returning leaves every apartment's count as it was |

## Findings

| source | as written | input that shows it | evidently intended | confidence | as-written member | corrected member |
|---|---|---|---|---|---|---|
| backend/src/utils/dateUtils.ts:15-21 | the due date is stored as a UTC calendar day (dateUtils.ts:40, used at transactionService.ts:58); isOverdue parses it as UTC midnight and truncates it to local midnight, so west of UTC it becomes the day before | a server at UTC-5, a loan due on day 100 and returned on local day 100: overdue, fined one day (5) | no loan is overdue or fined on its own due day | medium, not executed | DateUtils.DueDayFinedWestOfUtc | DateUtils.NoFineWithinLoanPeriod |

## Left out

- Dates are day numbers, and "today" is a parameter. The source reads the clock, works in milliseconds and local midnight, and rounds up with `Math.ceil`. The rest of the model treats the stored due day and today as days of one calendar, which is the intended rule. The code as written mixes two: the due date is stored as a UTC calendar day, and isOverdue reads it back as UTC midnight and truncates that to local midnight. On a server west of UTC a loan is therefore overdue, and fined, on its own due day. "## Findings" records it; the lemmas about the code as written take UTC offsets of less than a day. Daylight-saving days are not modelled.
- Fine rates and fines are naturals. The source reads the rate with `parseFloat`, so fractional rates are not modelled.
- The three settings are naturals with defaults 3, 14 and 5. A missing or empty setting row is `None`. A setting string that `parseInt` reads as `NaN` or as a negative number is not modelled.
- `toUpperCase` maps only ASCII letters. The outcome is unchanged, because no other character can upper-case to A–D or to an ASCII digit. Non-ASCII case mappings that change a string's length are not modelled.
- The 500 "failed to create" paths after an insert are not modelled, because the re-read of a just-inserted row always succeeds in this model.
- Timestamps (`created_at`, `updated_at`, `registration_date`) are not modelled.
- Audit snapshots, descriptions and IP addresses are not modelled. An audit entry records the librarian, action, entity and id.
- Error messages are not modelled; an error is its kind and HTTP status.
- Explicit `null` values in update requests are not modelled. A request field is either supplied (`Some`) or left out (`None`).
- Book ids and borrower ids come from fresh-id counters. SQLite's `last_insert_rowid()` and id reuse are not modelled.
- Each service call is one sequential step. The source issues separate, unbatched queries, so concurrent interleavings are not modelled.
- Authentication, listing, search, reports and the HTTP layer are not part of this model.
- BorrowerService.UpdateBorrower: the source queues the name column before it parses a new apartment. The model parses first. The result and the row are the same either way, because nothing is written before the parse can fail.
- BookService.DeleteBookSpec and BorrowerService.DeleteBorrowerSpec: a row is blocked only by `borrowed` loans, as the code does. A book or borrower whose loan is overdue can be deleted. A later return of such a loan then commits and reports 404, as ReturnSpec states.
- The availability rule is not an invariant of every operation. An update that sets `is_available` can break it, as UpdateBookCanReleaseALentBook shows. The lemmas prove that borrow, return and sweep preserve it.
- Borrower updates do not re-check that active names are unique per apartment, and neither does the model, so ActiveNamesUnique is proved only across creation.
