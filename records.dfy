/** Row shapes of the library's tables, the settings that drive the
    transaction engine, the audit record, and the errors the services raise. */
module Records {

  datatype Option<+T> = None | Some(value: T) {
    function GetOr(default: T): T {
      match this
      case Some(v) => v
      case None => default
    }
  }

  /** The error a service throws: a 404 for a missing row, a 400 for a broken business rule. */
  datatype AppError =
    | BookNotFound
    | BorrowerNotFound
    | TransactionNotFound
    | BookNotAvailable
    | BorrowerInactive
    | ApartmentLimitReached(apartment: string, limit: nat)
    | AlreadyReturned
    | InvalidApartment
    | DuplicateActiveBorrower
    | NoFieldsToUpdate
    | BorrowerHasActiveLoans
    | BookCurrentlyBorrowed
  {
    /** The HTTP status the service attaches to the error. */
    function Status(): (code: nat)
      ensures code == 404 <==> (BookNotFound? || BorrowerNotFound? || TransactionNotFound?)
      ensures code == 404 || code == 400
    {
      if BookNotFound? || BorrowerNotFound? || TransactionNotFound? then 404 else 400
    }
  }

  datatype Result<+T> = Ok(value: T) | Err(error: AppError)

  /** A calendar date, as a day number (consecutive days have consecutive numbers). */
  type Day = int

  datatype Status = Borrowed | Overdue | Returned

  datatype Book = Book(
    id: nat,
    title: string,
    author: string,
    isbn: Option<string>,
    genre: Option<string>,
    publicationDate: Option<string>,
    publisher: Option<string>,
    description: Option<string>,
    copyNumber: int,
    isAvailable: bool,
    totalTimesBorrowed: nat,
    createdBy: nat)

  datatype Borrower = Borrower(
    id: nat,
    fullName: string,
    apartmentNumber: string,
    wing: char,
    floor: nat,
    unit: nat,
    email: Option<string>,
    phone: string,
    exitDate: Option<string>,
    isActive: bool,
    notes: Option<string>,
    createdBy: nat)

  datatype Transaction = Transaction(
    id: nat,
    bookId: nat,
    borrowerId: nat,
    librarianId: nat,
    borrowDate: Day,
    dueDate: Day,
    returnDate: Option<Day>,
    fineAmount: nat,
    finePaid: bool,
    status: Status,
    notes: Option<string>)

  /** A loan that has not been returned yet (swept to overdue or not). */
  predicate IsOpen(txn: Transaction) {
    txn.status != Returned
  }

  /** The three policy settings; None stands for a missing row or an empty value. */
  datatype Settings = Settings(
    maxBooksPerApartment: Option<nat>,
    dueDateDays: Option<nat>,
    overdueFinePerDay: Option<nat>)

  function MaxBooksPerApartment(s: Settings): nat { s.maxBooksPerApartment.GetOr(3) }
  function DueDateDays(s: Settings): nat { s.dueDateDays.GetOr(14) }
  function OverdueFinePerDay(s: Settings): nat { s.overdueFinePerDay.GetOr(5) }

  datatype Action = CreateAction | UpdateAction | DeleteAction | BorrowAction | ReturnAction
  datatype Entity = BookEntity | BorrowerEntity | TransactionEntity

  /** One row of the append-only audit trail (snapshots and descriptions are not modelled). */
  datatype AuditEntry = AuditEntry(librarianId: nat, action: Action, entity: Entity, entityId: nat)

  /** The source's `value || null` for an optional text column: an empty string is stored as NULL. */
  function NullIfEmpty(s: Option<string>): (r: Option<string>)
    ensures r.None? <==> (s.None? || s.value == "")
    ensures r.Some? ==> r == s
  {
    if s.Some? && s.value != "" then s else None
  }
}
