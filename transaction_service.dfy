/** The loan engine: lending a book, taking it back, and the sweep that marks
    late loans overdue. "Today" is a parameter where the source reads the clock. */
module TransactionService {
  import opened Records
  import opened Database
  import opened DateUtils
  import opened BookService
  import opened BorrowerService

  /** getTransactionById: the row, or a 404 when there is none. */
  function GetTransactionById(t: Tables, id: nat): (r: Result<Transaction>)
    ensures r.Ok? <==> id in t.transactions
    ensures r.Ok? ==> r.value == t.transactions[id]
    ensures r.Err? ==> r.error == TransactionNotFound && r.error.Status() == 404
  {
    if id in t.transactions then Ok(t.transactions[id]) else Err(TransactionNotFound)
  }

  // ---------------------------------------------------------------------------
  // borrowBook

  /** The book exists and is marked available. */
  predicate BookLendable(t: Tables, bookId: nat) {
    bookId in t.books && t.books[bookId].isAvailable
  }

  /** The borrower exists and is active. */
  predicate BorrowerEligible(t: Tables, borrowerId: nat) {
    borrowerId in t.borrowers && t.borrowers[borrowerId].isActive
  }

  /** The apartment has fewer 'borrowed' loans than the configured maximum. */
  predicate BelowLimit(t: Tables, apartment: string) {
    GetApartmentBorrowCount(t, apartment) < MaxBooksPerApartment(t.settings)
  }

  /** The loan a successful borrow inserts. */
  function NewLoan(t: Tables, bookId: nat, borrowerId: nat, notes: Option<string>, librarianId: nat, today: Day): Transaction {
    Transaction(t.nextTransactionId, bookId, borrowerId, librarianId, today,
                AddDays(today, DueDateDays(t.settings)), None, 0, false, Borrowed, NullIfEmpty(notes))
  }

  /** borrowBook: the checks run in the source's order and the first failure
      wins, before anything is written; a loan that passes them all is inserted
      as 'borrowed', due DueDateDays days after today, and its book is marked
      unavailable with one more borrow to its name. */
  function BorrowSpec(t: Tables, bookId: nat, borrowerId: nat, notes: Option<string>, librarianId: nat, today: Day)
    : (o: Outcome<Transaction>)
    requires t.Valid()
    ensures o.after.Valid()
    ensures o.result.Err? ==> o.after == t
    ensures o.result == Err(BookNotFound) <==> bookId !in t.books
    ensures o.result == Err(BookNotAvailable) <==> bookId in t.books && !t.books[bookId].isAvailable
    ensures o.result == Err(BorrowerNotFound) <==> BookLendable(t, bookId) && borrowerId !in t.borrowers
    ensures o.result == Err(BorrowerInactive) <==>
      BookLendable(t, bookId) && borrowerId in t.borrowers && !t.borrowers[borrowerId].isActive
    ensures (o.result.Err? && o.result.error.ApartmentLimitReached?) <==>
      BookLendable(t, bookId) && BorrowerEligible(t, borrowerId)
      && !BelowLimit(t, t.borrowers[borrowerId].apartmentNumber)
    ensures o.result.Err? && o.result.error.ApartmentLimitReached? ==>
      o.result.error == ApartmentLimitReached(t.borrowers[borrowerId].apartmentNumber, MaxBooksPerApartment(t.settings))
    ensures o.result.Ok? ==>
      var txn := o.result.value;
      && txn.id !in t.transactions
      && txn.bookId == bookId && txn.borrowerId == borrowerId && txn.librarianId == librarianId
      && txn.status == Borrowed && txn.borrowDate == today && txn.returnDate.None?
      && txn.dueDate == today + DueDateDays(t.settings)
      && txn.fineAmount == 0 && !txn.finePaid && txn.notes == NullIfEmpty(notes)
      && o.after.transactions == t.transactions[txn.id := txn]
      && var book := t.books[bookId];
      && o.after.books == t.books[bookId := book.(isAvailable := false, totalTimesBorrowed := book.totalTimesBorrowed + 1)]
      && o.after.borrowers == t.borrowers && o.after.settings == t.settings
  {
    if bookId !in t.books then Outcome(Err(BookNotFound), t)
    else if !t.books[bookId].isAvailable then Outcome(Err(BookNotAvailable), t)
    else if borrowerId !in t.borrowers then Outcome(Err(BorrowerNotFound), t)
    else if !t.borrowers[borrowerId].isActive then Outcome(Err(BorrowerInactive), t)
    else
      var apartment := t.borrowers[borrowerId].apartmentNumber;
      var maxBooks := MaxBooksPerApartment(t.settings);
      if GetApartmentBorrowCount(t, apartment) >= maxBooks then
        Outcome(Err(ApartmentLimitReached(apartment, maxBooks)), t)
      else
        var txn := NewLoan(t, bookId, borrowerId, notes, librarianId, today);
        var book := t.books[bookId];
        Outcome(Ok(txn), t.(transactions := t.transactions[txn.id := txn],
                            books := t.books[bookId := book.(isAvailable := false, totalTimesBorrowed := book.totalTimesBorrowed + 1)],
                            nextTransactionId := txn.id + 1))
  }

  // ---------------------------------------------------------------------------
  // returnBook

  /** The loan row a return leaves behind: returned today, fined for the days
      past its due date, with the new notes when they are non-empty. */
  function ClosedLoan(txn: Transaction, finePaid: Option<bool>, notes: Option<string>, finePerDay: nat, today: Day): (r: Transaction)
    ensures r.id == txn.id && r.bookId == txn.bookId && r.borrowerId == txn.borrowerId
    ensures r.librarianId == txn.librarianId && r.borrowDate == txn.borrowDate && r.dueDate == txn.dueDate
    ensures r.status == Returned && r.returnDate == Some(today)
    ensures r.fineAmount == 0 <==> (today <= txn.dueDate || finePerDay == 0)
    ensures txn.dueDate < today ==> r.fineAmount == (today - txn.dueDate) * finePerDay
    ensures r.finePaid <==> finePaid == Some(true)
    ensures r.notes == if NullIfEmpty(notes).Some? then notes else txn.notes
  {
    txn.(returnDate := Some(today), status := Returned,
         fineAmount := CalculateFine(txn.dueDate, today, finePerDay),
         finePaid := finePaid.GetOr(false),
         notes := if NullIfEmpty(notes).Some? then notes else txn.notes)
  }

  /** The book table after `UPDATE books SET is_available = 1 WHERE id = ?`:
      a book that is no longer there is left missing. */
  function MarkAvailable(books: map<nat, Book>, bookId: nat): (r: map<nat, Book>)
    ensures r.Keys == books.Keys
    ensures bookId in r ==> r[bookId] == books[bookId].(isAvailable := true)
    ensures forall b :: b in books && b != bookId ==> r[b] == books[b]
  {
    if bookId in books then books[bookId := books[bookId].(isAvailable := true)] else books
  }

  /** returnBook: 404 for an unknown loan and 400 for one already returned, with
      nothing changed; otherwise the loan is closed and its book made available.
      The book and borrower are looked up again only after that write, so a
      book or borrower deleted meanwhile yields a 404 over a committed return. */
  function ReturnSpec(t: Tables, id: nat, finePaid: Option<bool>, notes: Option<string>, today: Day)
    : (o: Outcome<Transaction>)
    requires t.Valid()
    ensures o.after.Valid()
    ensures o.result == Err(TransactionNotFound) <==> id !in t.transactions
    ensures o.result == Err(AlreadyReturned) <==> id in t.transactions && t.transactions[id].status == Returned
    ensures o.result == Err(TransactionNotFound) || o.result == Err(AlreadyReturned) ==> o.after == t
    ensures id in t.transactions && IsOpen(t.transactions[id]) ==>
      var loan := t.transactions[id];
      var closed := ClosedLoan(loan, finePaid, notes, OverdueFinePerDay(t.settings), today);
      && o.after == t.(transactions := t.transactions[id := closed], books := MarkAvailable(t.books, loan.bookId))
      && (o.result.Ok? <==> loan.bookId in t.books && loan.borrowerId in t.borrowers)
      && (o.result.Ok? ==> o.result.value == closed)
      && (o.result == Err(BookNotFound) <==> loan.bookId !in t.books)
      && (o.result == Err(BorrowerNotFound) <==> loan.bookId in t.books && loan.borrowerId !in t.borrowers)
  {
    match GetTransactionById(t, id)
    case Err(e) => Outcome(Err(e), t)
    case Ok(loan) =>
      if loan.status == Returned then Outcome(Err(AlreadyReturned), t)
      else
        var closed := ClosedLoan(loan, finePaid, notes, OverdueFinePerDay(t.settings), today);
        var after := t.(transactions := t.transactions[id := closed], books := MarkAvailable(t.books, loan.bookId));
        if loan.bookId !in after.books then Outcome(Err(BookNotFound), after)
        else if loan.borrowerId !in after.borrowers then Outcome(Err(BorrowerNotFound), after)
        else Outcome(Ok(closed), after)
  }

  // ---------------------------------------------------------------------------
  // updateOverdueStatuses

  /** The 'borrowed' loans whose due day lies before today. */
  function DueForSweep(t: Tables, today: Day): set<nat> {
    set id | id in t.transactions && t.transactions[id].status == Borrowed && IsOverdue(t.transactions[id].dueDate, today)
  }

  /** One row of the bulk UPDATE. */
  function Swept(txn: Transaction, today: Day): Transaction {
    if txn.status == Borrowed && IsOverdue(txn.dueDate, today) then txn.(status := Overdue) else txn
  }

  /** updateOverdueStatuses: exactly the 'borrowed' rows past their due day turn
      'overdue', every other row is kept, and the result is how many rows changed. */
  function SweepSpec(t: Tables, today: Day): (o: Outcome<nat>)
    requires t.Valid()
    ensures o.after.Valid()
    ensures o.after == t.(transactions := o.after.transactions)
    ensures o.after.transactions.Keys == t.transactions.Keys
    ensures forall id :: id in t.transactions ==>
      o.after.transactions[id] ==
        if id in DueForSweep(t, today) then t.transactions[id].(status := Overdue) else t.transactions[id]
    ensures o.result.Ok?
    ensures o.result.value == |set id | id in t.transactions && o.after.transactions[id] != t.transactions[id]|
  {
    var after := t.(transactions := map id | id in t.transactions :: Swept(t.transactions[id], today));
    assert (set id | id in t.transactions && after.transactions[id] != t.transactions[id]) == DueForSweep(t, today);
    Outcome(Ok(|DueForSweep(t, today)|), after)
  }

  // ---------------------------------------------------------------------------
  // The operations on the store

  method BorrowBook(db: Library, bookId: nat, borrowerId: nat, notes: Option<string>, librarianId: nat, today: Day,
                    ghost auditStored: bool)
    returns (r: Result<Transaction>)
    requires db.Valid()
    modifies db
    ensures db.Valid()
    ensures var o := BorrowSpec(old(db.Snapshot()), bookId, borrowerId, notes, librarianId, today);
      r == o.result && db.Snapshot() == o.after
    ensures db.audit == old(db.audit) +
      (if r.Ok? && auditStored then [AuditEntry(librarianId, BorrowAction, TransactionEntity, r.value.id)] else [])
  {
    ghost var o := BorrowSpec(db.Snapshot(), bookId, borrowerId, notes, librarianId, today);
    var book := GetBookById(db.Snapshot(), bookId);
    if book.Err? {
      return Err(book.error);
    }
    if !book.value.isAvailable {
      return Err(BookNotAvailable);
    }
    var borrower := GetBorrowerById(db.Snapshot(), borrowerId);
    if borrower.Err? {
      return Err(borrower.error);
    }
    if !borrower.value.isActive {
      return Err(BorrowerInactive);
    }
    var apartmentBorrowCount := GetApartmentBorrowCount(db.Snapshot(), borrower.value.apartmentNumber);
    var maxBooks := MaxBooksPerApartment(db.settings);
    if apartmentBorrowCount >= maxBooks {
      return Err(ApartmentLimitReached(borrower.value.apartmentNumber, maxBooks));
    }
    var txn := NewLoan(db.Snapshot(), bookId, borrowerId, notes, librarianId, today);
    db.transactions := db.transactions[txn.id := txn];
    db.nextTransactionId := txn.id + 1;
    var lent := book.value.(isAvailable := false);
    db.books := db.books[bookId := lent.(totalTimesBorrowed := lent.totalTimesBorrowed + 1)];
    r := Ok(txn);
    assert r == o.result && db.Snapshot() == o.after;
    db.LogAudit(AuditEntry(librarianId, BorrowAction, TransactionEntity, txn.id), auditStored);
  }

  method ReturnBook(db: Library, id: nat, finePaid: Option<bool>, notes: Option<string>, librarianId: nat, today: Day,
                    ghost auditStored: bool)
    returns (r: Result<Transaction>)
    requires db.Valid()
    modifies db
    ensures db.Valid()
    ensures var o := ReturnSpec(old(db.Snapshot()), id, finePaid, notes, today);
      r == o.result && db.Snapshot() == o.after
    ensures db.audit == old(db.audit) +
      (if r.Ok? && auditStored then [AuditEntry(librarianId, ReturnAction, TransactionEntity, id)] else [])
  {
    ghost var o := ReturnSpec(db.Snapshot(), id, finePaid, notes, today);
    var loan := GetTransactionById(db.Snapshot(), id);
    if loan.Err? {
      return loan;
    }
    if loan.value.status == Returned {
      return Err(AlreadyReturned);
    }
    db.transactions := db.transactions[id := ClosedLoan(loan.value, finePaid, notes, OverdueFinePerDay(db.settings), today)];
    db.books := MarkAvailable(db.books, loan.value.bookId);
    r := GetTransactionById(db.Snapshot(), id);
    var book := GetBookById(db.Snapshot(), loan.value.bookId);
    if book.Err? {
      return Err(book.error);
    }
    var borrower := GetBorrowerById(db.Snapshot(), loan.value.borrowerId);
    if borrower.Err? {
      return Err(borrower.error);
    }
    db.LogAudit(AuditEntry(librarianId, ReturnAction, TransactionEntity, id), auditStored);
  }

  method UpdateOverdueStatuses(db: Library, today: Day) returns (changes: nat)
    requires db.Valid()
    modifies db`transactions
    ensures db.Valid()
    ensures var o := SweepSpec(old(db.Snapshot()), today);
      Ok(changes) == o.result && db.Snapshot() == o.after
  {
    changes := |DueForSweep(db.Snapshot(), today)|;
    db.transactions := map id | id in db.transactions :: Swept(db.transactions[id], today);
  }

  // ---------------------------------------------------------------------------
  // The availability rule across loans

  /** Changing loans that are open before and after, without moving them to
      another book, leaves every book's open-loan status as it was. */
  lemma SameOpenLoansSameStatus(t: Tables, t': Tables, bookId: nat)
    requires forall id :: id in t'.transactions ==>
      (id in t.transactions && IsOpen(t'.transactions[id]) == IsOpen(t.transactions[id])
       && t'.transactions[id].bookId == t.transactions[id].bookId)
    requires t.transactions.Keys <= t'.transactions.Keys
    ensures HasOpenLoan(t', bookId) == HasOpenLoan(t, bookId)
  {
    if HasOpenLoan(t, bookId) {
      var id :| id in t.transactions && IsOpen(t.transactions[id]) && t.transactions[id].bookId == bookId;
      assert id in t'.transactions;
    }
  }

  /** A successful borrow keeps the rule: the book was available, so it had no
      open loan; afterwards it has exactly the new one and is unavailable. */
  lemma BorrowKeepsLoansConsistent(t: Tables, bookId: nat, borrowerId: nat, notes: Option<string>, librarianId: nat, today: Day)
    requires t.Valid() && LoansConsistent(t)
    ensures LoansConsistent(BorrowSpec(t, bookId, borrowerId, notes, librarianId, today).after)
  {
    var o := BorrowSpec(t, bookId, borrowerId, notes, librarianId, today);
    if o.result.Ok? {
      var n := o.result.value.id;
      var t' := o.after;
      assert forall j :: j in t.transactions && IsOpen(t.transactions[j]) ==> t.transactions[j].bookId != bookId;
      assert IsOpen(t'.transactions[n]) && t'.transactions[n].bookId == bookId;
      forall c | c in t'.books && c != bookId
        ensures t'.books[c].isAvailable <==> !HasOpenLoan(t', c)
      {
        if HasOpenLoan(t', c) {
          var id :| id in t'.transactions && IsOpen(t'.transactions[id]) && t'.transactions[id].bookId == c;
          assert id in t.transactions;
        }
        if HasOpenLoan(t, c) {
          var id :| id in t.transactions && IsOpen(t.transactions[id]) && t.transactions[id].bookId == c;
          assert id in t'.transactions;
        }
      }
    }
  }

  /** A return keeps the rule: the loan it closes was its book's only open loan,
      so the book, now available, has none. */
  lemma ReturnKeepsLoansConsistent(t: Tables, id: nat, finePaid: Option<bool>, notes: Option<string>, today: Day)
    requires t.Valid() && LoansConsistent(t)
    ensures LoansConsistent(ReturnSpec(t, id, finePaid, notes, today).after)
  {
    var o := ReturnSpec(t, id, finePaid, notes, today);
    if id in t.transactions && IsOpen(t.transactions[id]) {
      var b := t.transactions[id].bookId;
      var t' := o.after;
      assert forall j :: j in t.transactions && IsOpen(t.transactions[j]) && t.transactions[j].bookId == b ==> j == id;
      assert !IsOpen(t'.transactions[id]);
      forall c | c in t'.books
        ensures t'.books[c].isAvailable <==> !HasOpenLoan(t', c)
      {
        if HasOpenLoan(t', c) {
          var j :| j in t'.transactions && IsOpen(t'.transactions[j]) && t'.transactions[j].bookId == c;
          assert j in t.transactions && IsOpen(t.transactions[j]);
        }
        if c != b && HasOpenLoan(t, c) {
          var j :| j in t.transactions && IsOpen(t.transactions[j]) && t.transactions[j].bookId == c;
          assert j in t'.transactions;
        }
      }
    }
  }

  /** Changing loans that are open before and after, without moving them to
      another book, keeps the rule. */
  lemma SameOpenLoansKeepRule(t: Tables, t': Tables)
    requires LoansConsistent(t)
    requires t'.books == t.books && t'.transactions.Keys == t.transactions.Keys
    requires forall id :: id in t.transactions ==>
      (IsOpen(t'.transactions[id]) == IsOpen(t.transactions[id])
       && t'.transactions[id].bookId == t.transactions[id].bookId)
    ensures LoansConsistent(t')
  {
    forall c | c in t'.books
      ensures t'.books[c].isAvailable <==> !HasOpenLoan(t', c)
    {
      SameOpenLoansSameStatus(t, t', c);
    }
  }

  /** The sweep only moves loans from one open status to the other, so the
      rule is untouched. */
  lemma SweepKeepsLoansConsistent(t: Tables, today: Day)
    requires t.Valid() && LoansConsistent(t)
    ensures LoansConsistent(SweepSpec(t, today).after)
  {
    var t' := SweepSpec(t, today).after;
    assert forall id :: id in t.transactions ==>
      (IsOpen(t'.transactions[id]) == IsOpen(t.transactions[id])
       && t'.transactions[id].bookId == t.transactions[id].bookId);
    SameOpenLoansKeepRule(t, t');
  }

  // ---------------------------------------------------------------------------
  // Returns, sweeps and their repetition

  /** A loan that has been returned cannot be returned again, and the second
      attempt changes nothing. */
  lemma ReturnTwiceRejected(t: Tables, id: nat, finePaid: Option<bool>, notes: Option<string>, today: Day,
                            finePaid2: Option<bool>, notes2: Option<string>, later: Day)
    requires t.Valid() && id in t.transactions && IsOpen(t.transactions[id])
    ensures var o := ReturnSpec(t, id, finePaid, notes, today);
      ReturnSpec(o.after, id, finePaid2, notes2, later) == Outcome(Err(AlreadyReturned), o.after)
  {
    var o := ReturnSpec(t, id, finePaid, notes, today);
    assert o.after.transactions[id].status == Returned;
  }

  /** A second sweep on the same day finds nothing left to change. */
  lemma SweepIsIdempotent(t: Tables, today: Day)
    requires t.Valid()
    ensures var o := SweepSpec(t, today);
      SweepSpec(o.after, today) == Outcome(Ok(0), o.after)
  {
    var o := SweepSpec(t, today);
    var o2 := SweepSpec(o.after, today);
    assert DueForSweep(o.after, today) == {};
    assert o2.after.transactions == o.after.transactions;
  }

  // ---------------------------------------------------------------------------
  // The apartment count

  /** A successful borrow adds its loan to the borrower's apartment and to no other. */
  lemma BorrowAddsOneToApartmentCount(t: Tables, bookId: nat, borrowerId: nat, notes: Option<string>, librarianId: nat,
                                       today: Day, apartment: string)
    requires t.Valid()
    requires BorrowSpec(t, bookId, borrowerId, notes, librarianId, today).result.Ok?
    ensures GetApartmentBorrowCount(BorrowSpec(t, bookId, borrowerId, notes, librarianId, today).after, apartment) ==
      GetApartmentBorrowCount(t, apartment) + (if t.borrowers[borrowerId].apartmentNumber == apartment then 1 else 0)
  {
    var o := BorrowSpec(t, bookId, borrowerId, notes, librarianId, today);
    var n := o.result.value.id;
    assert n !in BorrowedLoansOf(t, apartment);
    InsertingABorrowedLoan(t, o.after, n, apartment);
  }

  lemma InsertingABorrowedLoan(t: Tables, t': Tables, n: nat, apartment: string)
    requires n !in t.transactions && n in t'.transactions
    requires t'.transactions == t.transactions[n := t'.transactions[n]] && t'.borrowers == t.borrowers
    requires t'.transactions[n].status == Borrowed && t'.transactions[n].borrowerId in t.borrowers
    ensures BorrowedLoansOf(t', apartment) ==
      BorrowedLoansOf(t, apartment) + (if t.borrowers[t'.transactions[n].borrowerId].apartmentNumber == apartment then {n} else {})
  {
  }

  /** A borrow that succeeds leaves its apartment at or below the maximum:
      the other residents' loans count against the same limit. */
  lemma BorrowStaysWithinLimit(t: Tables, bookId: nat, borrowerId: nat, notes: Option<string>, librarianId: nat, today: Day)
    requires t.Valid()
    requires BorrowSpec(t, bookId, borrowerId, notes, librarianId, today).result.Ok?
    ensures var apartment := t.borrowers[borrowerId].apartmentNumber;
      GetApartmentBorrowCount(BorrowSpec(t, bookId, borrowerId, notes, librarianId, today).after, apartment)
        <= MaxBooksPerApartment(t.settings)
  {
    BorrowAddsOneToApartmentCount(t, bookId, borrowerId, notes, librarianId, today, t.borrowers[borrowerId].apartmentNumber);
  }

  /** Returning a loan still marked 'borrowed' gives its apartment one slot back;
      returning an overdue loan does not change any count. */
  lemma ReturnTakesOneFromApartmentCount(t: Tables, id: nat, finePaid: Option<bool>, notes: Option<string>, today: Day,
                                          apartment: string)
    requires t.Valid() && id in t.transactions && IsOpen(t.transactions[id])
    ensures var loan := t.transactions[id];
      GetApartmentBorrowCount(ReturnSpec(t, id, finePaid, notes, today).after, apartment) ==
        GetApartmentBorrowCount(t, apartment) -
          (if loan.status == Borrowed && loan.borrowerId in t.borrowers
              && t.borrowers[loan.borrowerId].apartmentNumber == apartment then 1 else 0)
  {
    var o := ReturnSpec(t, id, finePaid, notes, today);
    var before := BorrowedLoansOf(t, apartment);
    assert BorrowedLoansOf(o.after, apartment) == before - {id};
    if id in before {
      assert before == (before - {id}) + {id};
    } else {
      assert before - {id} == before;
    }
  }

  /** The sweep never raises an apartment's count, and lowers it when one of
      the apartment's loans turns overdue. */
  lemma SweepFreesApartmentSlots(t: Tables, today: Day, apartment: string)
    requires t.Valid()
    ensures GetApartmentBorrowCount(SweepSpec(t, today).after, apartment) <= GetApartmentBorrowCount(t, apartment)
    ensures BorrowedLoansOf(t, apartment) * DueForSweep(t, today) != {} ==>
      GetApartmentBorrowCount(SweepSpec(t, today).after, apartment) < GetApartmentBorrowCount(t, apartment)
  {
    var after := SweepSpec(t, today).after;
    var before := BorrowedLoansOf(t, apartment);
    SweepRemovesDueLoans(t, today, apartment);
    if before * DueForSweep(t, today) != {} {
      var x :| x in before * DueForSweep(t, today);
      SubsetIsNoLarger(BorrowedLoansOf(after, apartment), before - {x});
      assert before == (before - {x}) + {x};
    } else {
      SubsetIsNoLarger(BorrowedLoansOf(after, apartment), before);
    }
  }

  lemma SweepRemovesDueLoans(t: Tables, today: Day, apartment: string)
    requires t.Valid()
    ensures BorrowedLoansOf(SweepSpec(t, today).after, apartment) == BorrowedLoansOf(t, apartment) - DueForSweep(t, today)
  {
  }

  // ---------------------------------------------------------------------------
  // Borrowing and then returning

  /** The returned loans of a book. */
  function ReturnedLoansOf(t: Tables, bookId: nat): set<nat> {
    set id | id in t.transactions && t.transactions[id].bookId == bookId && t.transactions[id].status == Returned
  }

  /** Borrowing a book and returning that loan succeeds and leaves the book
      available with no open loan and one borrow more on its counter. */
  lemma BorrowThenReturnFreesBook(t: Tables, bookId: nat, borrowerId: nat, notes: Option<string>, librarianId: nat,
                                  today: Day, finePaid: Option<bool>, returnNotes: Option<string>, later: Day)
    requires t.Valid() && LoansConsistent(t)
    requires BorrowSpec(t, bookId, borrowerId, notes, librarianId, today).result.Ok?
    ensures var o1 := BorrowSpec(t, bookId, borrowerId, notes, librarianId, today);
      var o2 := ReturnSpec(o1.after, o1.result.value.id, finePaid, returnNotes, later);
      && o2.result.Ok?
      && bookId in o2.after.books && o2.after.books[bookId].isAvailable && !HasOpenLoan(o2.after, bookId)
      && o2.after.books[bookId].totalTimesBorrowed == t.books[bookId].totalTimesBorrowed + 1
  {
    var o1 := BorrowSpec(t, bookId, borrowerId, notes, librarianId, today);
    var n := o1.result.value.id;
    BorrowKeepsLoansConsistent(t, bookId, borrowerId, notes, librarianId, today);
    ReturnKeepsLoansConsistent(o1.after, n, finePaid, returnNotes, later);
  }

  /** Borrowing a book and returning that loan adds exactly one returned loan
      for the book; returned by the due day, that loan carries no fine. */
  lemma BorrowThenReturnClosesOneLoan(t: Tables, bookId: nat, borrowerId: nat, notes: Option<string>, librarianId: nat,
                                      today: Day, finePaid: Option<bool>, returnNotes: Option<string>, later: Day)
    requires t.Valid()
    requires BorrowSpec(t, bookId, borrowerId, notes, librarianId, today).result.Ok?
    ensures var o1 := BorrowSpec(t, bookId, borrowerId, notes, librarianId, today);
      var n := o1.result.value.id;
      var o2 := ReturnSpec(o1.after, n, finePaid, returnNotes, later);
      && n !in ReturnedLoansOf(t, bookId)
      && ReturnedLoansOf(o2.after, bookId) == ReturnedLoansOf(t, bookId) + {n}
      && o2.after.transactions[n].returnDate == Some(later)
      && (later <= AddDays(today, DueDateDays(t.settings)) ==> o2.after.transactions[n].fineAmount == 0)
  {
    var o1 := BorrowSpec(t, bookId, borrowerId, notes, librarianId, today);
    var n := o1.result.value.id;
    var o2 := ReturnSpec(o1.after, n, finePaid, returnNotes, later);
    assert o2.after.transactions == t.transactions[n := o2.after.transactions[n]];
    AddingAReturnedLoan(t, o2.after, n, bookId);
  }

  lemma AddingAReturnedLoan(t: Tables, t': Tables, n: nat, bookId: nat)
    requires n !in t.transactions && n in t'.transactions
    requires t'.transactions == t.transactions[n := t'.transactions[n]]
    requires t'.transactions[n].bookId == bookId && t'.transactions[n].status == Returned
    ensures ReturnedLoansOf(t', bookId) == ReturnedLoansOf(t, bookId) + {n}
  {
  }

  /** Borrowing a book and returning that loan gives every apartment back the count it had. */
  lemma BorrowThenReturnRestoresApartmentCount(t: Tables, bookId: nat, borrowerId: nat, notes: Option<string>,
                                               librarianId: nat, today: Day, finePaid: Option<bool>,
                                               returnNotes: Option<string>, later: Day, apartment: string)
    requires t.Valid()
    requires BorrowSpec(t, bookId, borrowerId, notes, librarianId, today).result.Ok?
    ensures var o1 := BorrowSpec(t, bookId, borrowerId, notes, librarianId, today);
      var o2 := ReturnSpec(o1.after, o1.result.value.id, finePaid, returnNotes, later);
      GetApartmentBorrowCount(o2.after, apartment) == GetApartmentBorrowCount(t, apartment)
  {
    var o1 := BorrowSpec(t, bookId, borrowerId, notes, librarianId, today);
    BorrowAddsOneToApartmentCount(t, bookId, borrowerId, notes, librarianId, today, apartment);
    ReturnTakesOneFromApartmentCount(o1.after, o1.result.value.id, finePaid, returnNotes, later, apartment);
  }
}
