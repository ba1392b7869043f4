/** The relational store the services share: the books, borrowers and
    transactions tables keyed by row id, the settings table, and the
    append-only audit trail. */
module Database {
  import opened Records

  /** The contents of the store at one moment. */
  datatype Tables = Tables(
    books: map<nat, Book>,
    borrowers: map<nat, Borrower>,
    transactions: map<nat, Transaction>,
    settings: Settings,
    nextBookId: nat,
    nextBorrowerId: nat,
    nextTransactionId: nat)
  {
    /** Every row sits under its own id, below the next id its table hands out,
        and every loan refers to book and borrower ids already handed out. */
    ghost predicate Valid() {
      && (forall id :: id in books ==> id < nextBookId && books[id].id == id)
      && (forall id :: id in borrowers ==> id < nextBorrowerId && borrowers[id].id == id)
      && (forall id :: id in transactions ==>
            && id < nextTransactionId && transactions[id].id == id
            && transactions[id].bookId < nextBookId
            && transactions[id].borrowerId < nextBorrowerId)
    }
  }

  /** What a service call returns, paired with the store it leaves behind. */
  datatype Outcome<+T> = Outcome(result: Result<T>, after: Tables)

  predicate HasOpenLoan(t: Tables, bookId: nat) {
    exists id :: id in t.transactions && IsOpen(t.transactions[id]) && t.transactions[id].bookId == bookId
  }

  /** The availability rule of the catalogue: a book has at most one open loan,
      and it is available exactly when it has none. */
  ghost predicate LoansConsistent(t: Tables) {
    && (forall i, j ::
          (i in t.transactions && j in t.transactions
           && IsOpen(t.transactions[i]) && IsOpen(t.transactions[j])
           && t.transactions[i].bookId == t.transactions[j].bookId) ==> i == j)
    && (forall b :: b in t.books ==> (t.books[b].isAvailable <==> !HasOpenLoan(t, b)))
  }

  class Library {
    var books: map<nat, Book>
    var borrowers: map<nat, Borrower>
    var transactions: map<nat, Transaction>
    var settings: Settings
    var nextBookId: nat
    var nextBorrowerId: nat
    var nextTransactionId: nat
    ghost var audit: seq<AuditEntry>

    function Snapshot(): Tables
      reads this
    {
      Tables(books, borrowers, transactions, settings, nextBookId, nextBorrowerId, nextTransactionId)
    }

    ghost predicate Valid()
      reads this
    {
      Snapshot().Valid()
    }

    /** An empty store with the given settings. */
    constructor (settings: Settings)
      ensures Valid() && LoansConsistent(Snapshot())
      ensures Snapshot() == Tables(map[], map[], map[], settings, 1, 1, 1)
      ensures audit == []
    {
      books, borrowers, transactions := map[], map[], map[];
      this.settings := settings;
      nextBookId, nextBorrowerId, nextTransactionId := 1, 1, 1;
      audit := [];
    }

    /** logAudit: the entry is appended when its insert succeeds; a failed
        insert is swallowed and leaves everything else as it was. */
    ghost method LogAudit(entry: AuditEntry, stored: bool)
      modifies this`audit
      ensures audit == old(audit) + (if stored then [entry] else [])
    {
      if stored {
        audit := audit + [entry];
      }
    }
  }
}
