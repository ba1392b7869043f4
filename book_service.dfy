/** The catalogue: creating, updating, deleting and looking up books. */
module BookService {
  import opened Records
  import opened Database

  /** A create request; absent optional fields are None. */
  datatype NewBook = NewBook(
    title: string,
    author: string,
    isbn: Option<string>,
    genre: Option<string>,
    publicationDate: Option<string>,
    publisher: Option<string>,
    description: Option<string>,
    copyNumber: Option<int>)

  /** An update request; a field the request leaves out is None. */
  datatype BookPatch = BookPatch(
    title: Option<string>,
    author: Option<string>,
    isbn: Option<string>,
    genre: Option<string>,
    publicationDate: Option<string>,
    publisher: Option<string>,
    description: Option<string>,
    copyNumber: Option<int>,
    isAvailable: Option<bool>)

  /** The nine columns an update may write, in the order updateBook visits them. */
  datatype BookField =
    Title | Author | Isbn | Genre | PublicationDate | Publisher | Description | CopyNumber | IsAvailable

  const UpdatableFields: seq<BookField> :=
    [Title, Author, Isbn, Genre, PublicationDate, Publisher, Description, CopyNumber, IsAvailable]

  /** The position of a field in UpdatableFields. */
  function FieldIndex(f: BookField): (k: nat)
    ensures k < |UpdatableFields| && UpdatableFields[k] == f
  {
    match f
    case Title => 0
    case Author => 1
    case Isbn => 2
    case Genre => 3
    case PublicationDate => 4
    case Publisher => 5
    case Description => 6
    case CopyNumber => 7
    case IsAvailable => 8
  }

  lemma FieldIndexOfPosition(k: nat)
    requires k < |UpdatableFields|
    ensures FieldIndex(UpdatableFields[k]) == k
  {
    if k == 0 {} else if k == 1 {} else if k == 2 {} else if k == 3 {}
    else if k == 4 {} else if k == 5 {} else if k == 6 {} else if k == 7 {}
  }

  /** The value of one updatable column. */
  datatype FieldValue = Text(text: string) | OptionalText(optionalText: Option<string>) | Number(number: int) | Flag(flag: bool)

  function FieldOf(b: Book, f: BookField): FieldValue {
    match f
    case Title => Text(b.title)
    case Author => Text(b.author)
    case Isbn => OptionalText(b.isbn)
    case Genre => OptionalText(b.genre)
    case PublicationDate => OptionalText(b.publicationDate)
    case Publisher => OptionalText(b.publisher)
    case Description => OptionalText(b.description)
    case CopyNumber => Number(b.copyNumber)
    case IsAvailable => Flag(b.isAvailable)
  }

  /** The value a request supplies for a column, or None when it leaves the column out. */
  function Supplied(p: BookPatch, f: BookField): Option<FieldValue> {
    match f
    case Title => if p.title.Some? then Some(Text(p.title.value)) else None
    case Author => if p.author.Some? then Some(Text(p.author.value)) else None
    case Isbn => if p.isbn.Some? then Some(OptionalText(p.isbn)) else None
    case Genre => if p.genre.Some? then Some(OptionalText(p.genre)) else None
    case PublicationDate => if p.publicationDate.Some? then Some(OptionalText(p.publicationDate)) else None
    case Publisher => if p.publisher.Some? then Some(OptionalText(p.publisher)) else None
    case Description => if p.description.Some? then Some(OptionalText(p.description)) else None
    case CopyNumber => if p.copyNumber.Some? then Some(Number(p.copyNumber.value)) else None
    case IsAvailable => if p.isAvailable.Some? then Some(Flag(p.isAvailable.value)) else None
  }

  predicate NoFieldSupplied(p: BookPatch) {
    forall f: BookField :: Supplied(p, f).None?
  }

  /** `b'` is `b` with exactly the supplied columns replaced. */
  predicate FollowsPatch(b: Book, p: BookPatch, b': Book) {
    && b'.id == b.id && b'.totalTimesBorrowed == b.totalTimesBorrowed && b'.createdBy == b.createdBy
    && forall f: BookField :: FieldOf(b', f) == Supplied(p, f).GetOr(FieldOf(b, f))
  }

  /** One `field = ?` of the UPDATE statement. */
  function SetField(b: Book, p: BookPatch, f: BookField): (r: Book)
    requires Supplied(p, f).Some?
    ensures r.id == b.id && r.totalTimesBorrowed == b.totalTimesBorrowed && r.createdBy == b.createdBy
    ensures FieldOf(r, f) == Supplied(p, f).value
    ensures forall g :: g != f ==> FieldOf(r, g) == FieldOf(b, g)
  {
    match f
    case Title => b.(title := p.title.value)
    case Author => b.(author := p.author.value)
    case Isbn => b.(isbn := p.isbn)
    case Genre => b.(genre := p.genre)
    case PublicationDate => b.(publicationDate := p.publicationDate)
    case Publisher => b.(publisher := p.publisher)
    case Description => b.(description := p.description)
    case CopyNumber => b.(copyNumber := p.copyNumber.value)
    case IsAvailable => b.(isAvailable := p.isAvailable.value)
  }

  /** The row an update leaves behind. */
  function ApplyPatch(b: Book, p: BookPatch): Book
  {
    b.(title := p.title.GetOr(b.title),
       author := p.author.GetOr(b.author),
       isbn := if p.isbn.Some? then p.isbn else b.isbn,
       genre := if p.genre.Some? then p.genre else b.genre,
       publicationDate := if p.publicationDate.Some? then p.publicationDate else b.publicationDate,
       publisher := if p.publisher.Some? then p.publisher else b.publisher,
       description := if p.description.Some? then p.description else b.description,
       copyNumber := p.copyNumber.GetOr(b.copyNumber),
       isAvailable := p.isAvailable.GetOr(b.isAvailable))
  }

  /** The row an update leaves behind keeps the unsupplied columns and takes the supplied ones. */
  lemma ApplyPatchFollowsPatch(b: Book, p: BookPatch)
    ensures FollowsPatch(b, p, ApplyPatch(b, p))
  {
    var r := ApplyPatch(b, p);
    forall f ensures FieldOf(r, f) == Supplied(p, f).GetOr(FieldOf(b, f)) {
      match f
      case Title =>
      case Author =>
      case Isbn =>
      case Genre =>
      case PublicationDate =>
      case Publisher =>
      case Description =>
      case CopyNumber =>
      case IsAvailable =>
    }
  }

  /** A row is determined by its updatable columns and the ones no update touches. */
  lemma FollowsPatchDeterminesRow(b: Book, p: BookPatch, r1: Book, r2: Book)
    requires FollowsPatch(b, p, r1) && FollowsPatch(b, p, r2)
    ensures r1 == r2
  {
    assert FieldOf(r1, Title) == FieldOf(r2, Title);
    assert FieldOf(r1, Author) == FieldOf(r2, Author);
    assert FieldOf(r1, Isbn) == FieldOf(r2, Isbn);
    assert FieldOf(r1, Genre) == FieldOf(r2, Genre);
    assert FieldOf(r1, PublicationDate) == FieldOf(r2, PublicationDate);
    assert FieldOf(r1, Publisher) == FieldOf(r2, Publisher);
    assert FieldOf(r1, Description) == FieldOf(r2, Description);
    assert FieldOf(r1, CopyNumber) == FieldOf(r2, CopyNumber);
    assert FieldOf(r1, IsAvailable) == FieldOf(r2, IsAvailable);
  }

  /** The loop of updateBook over its field list: collects the supplied columns,
      in list order, together with the row they produce. */
  method CollectBookUpdates(b: Book, p: BookPatch) returns (updates: seq<BookField>, row: Book)
    ensures forall f :: f in updates <==> Supplied(p, f).Some?
    ensures forall k, l :: 0 <= k < l < |updates| ==> FieldIndex(updates[k]) < FieldIndex(updates[l])
    ensures |updates| == 0 <==> NoFieldSupplied(p)
    ensures FollowsPatch(b, p, row)
  {
    updates, row := [], b;
    for i := 0 to |UpdatableFields|
      invariant forall f :: f in updates <==> FieldIndex(f) < i && Supplied(p, f).Some?
      invariant row.id == b.id && row.totalTimesBorrowed == b.totalTimesBorrowed && row.createdBy == b.createdBy
      invariant forall k, l :: 0 <= k < l < |updates| ==> FieldIndex(updates[k]) < FieldIndex(updates[l])
      invariant forall f :: FieldOf(row, f) == (if FieldIndex(f) < i then Supplied(p, f).GetOr(FieldOf(b, f)) else FieldOf(b, f))
    {
      var f := UpdatableFields[i];
      FieldIndexOfPosition(i);
      if Supplied(p, f).Some? {
        updates := updates + [f];
        row := SetField(row, p, f);
      }
    }
    if |updates| == 0 {
      forall f: BookField ensures Supplied(p, f).None? {
        assert f !in updates;
      }
    } else {
      assert updates[0] in updates;
    }
  }

  /** getBookById: the row, or a 404 when there is none. */
  function GetBookById(t: Tables, id: nat): (r: Result<Book>)
    ensures r.Ok? <==> id in t.books
    ensures r.Ok? ==> r.value == t.books[id]
    ensures r.Err? ==> r.error == BookNotFound && r.error.Status() == 404
  {
    if id in t.books then Ok(t.books[id]) else Err(BookNotFound)
  }

  // ---------------------------------------------------------------------------
  // The operations on the store

  /** createBook: inserts an available, never-borrowed book under a fresh id. */
  function CreateBookSpec(t: Tables, data: NewBook, createdBy: nat): (o: Outcome<Book>)
    requires t.Valid()
    ensures o.result.Ok? && o.after.Valid()
    ensures var b := o.result.value;
      && b.id !in t.books && o.after.books == t.books[b.id := b]
      && o.after.borrowers == t.borrowers && o.after.transactions == t.transactions
      && o.after.settings == t.settings
    ensures var b := o.result.value;
      && b.title == data.title && b.author == data.author
      && b.isbn == NullIfEmpty(data.isbn) && b.genre == NullIfEmpty(data.genre)
      && b.publicationDate == NullIfEmpty(data.publicationDate)
      && b.publisher == NullIfEmpty(data.publisher)
      && b.description == NullIfEmpty(data.description)
      && b.copyNumber == (if data.copyNumber.Some? then data.copyNumber.value else 1)
      && b.isAvailable && b.totalTimesBorrowed == 0 && b.createdBy == createdBy
  {
    var id := t.nextBookId;
    var book := Book(id, data.title, data.author, NullIfEmpty(data.isbn), NullIfEmpty(data.genre),
                     NullIfEmpty(data.publicationDate), NullIfEmpty(data.publisher),
                     NullIfEmpty(data.description), data.copyNumber.GetOr(1), true, 0, createdBy);
    Outcome(Ok(book), t.(books := t.books[id := book], nextBookId := id + 1))
  }

  /** updateBook: 404 for a missing book, 400 when no column is supplied,
      otherwise the supplied columns are written and nothing else. */
  function UpdateBookSpec(t: Tables, id: nat, p: BookPatch): (o: Outcome<Book>)
    requires t.Valid()
    ensures o.after.Valid()
    ensures o.result.Err? ==> o.after == t
    ensures o.result == Err(BookNotFound) <==> id !in t.books
    ensures o.result == Err(NoFieldsToUpdate) <==> id in t.books && NoFieldSupplied(p)
    ensures o.result.Ok? ==>
      && o.after == t.(books := t.books[id := o.result.value])
      && FollowsPatch(t.books[id], p, o.result.value)
  {
    match GetBookById(t, id)
    case Err(e) => Outcome(Err(e), t)
    case Ok(book) =>
      if NoFieldSupplied(p) then Outcome(Err(NoFieldsToUpdate), t)
      else
        var row := ApplyPatch(book, p);
        ApplyPatchFollowsPatch(book, p);
        Outcome(Ok(row), t.(books := t.books[id := row]))
  }

  /** Some loan of the book still has status 'borrowed'. */
  predicate HasBorrowedLoan(t: Tables, bookId: nat) {
    exists id :: id in t.transactions && t.transactions[id].bookId == bookId && t.transactions[id].status == Borrowed
  }

  /** deleteBook: 404 for a missing book, 400 while a 'borrowed' loan refers to
      it, otherwise the row is removed and every other book is kept. */
  function DeleteBookSpec(t: Tables, id: nat): (o: Outcome<()>)
    requires t.Valid()
    ensures o.after.Valid()
    ensures o.result.Err? ==> o.after == t
    ensures o.result == Err(BookNotFound) <==> id !in t.books
    ensures o.result == Err(BookCurrentlyBorrowed) <==> id in t.books && HasBorrowedLoan(t, id)
    ensures o.result.Ok? ==>
      && id !in o.after.books
      && (forall b :: b in t.books && b != id ==> b in o.after.books && o.after.books[b] == t.books[b])
      && o.after.books.Keys == t.books.Keys - {id}
      && o.after == t.(books := o.after.books)
  {
    match GetBookById(t, id)
    case Err(e) => Outcome(Err(e), t)
    case Ok(_) =>
      if HasBorrowedLoan(t, id) then Outcome(Err(BookCurrentlyBorrowed), t)
      else Outcome(Ok(()), t.(books := t.books - {id}))
  }

  method CreateBook(db: Library, data: NewBook, createdBy: nat, ghost auditStored: bool) returns (r: Book)
    requires db.Valid()
    modifies db
    ensures db.Valid()
    ensures var o := CreateBookSpec(old(db.Snapshot()), data, createdBy);
      Ok(r) == o.result && db.Snapshot() == o.after
    ensures db.audit == old(db.audit) + (if auditStored then [AuditEntry(createdBy, CreateAction, BookEntity, r.id)] else [])
  {
    var id := db.nextBookId;
    r := Book(id, data.title, data.author, NullIfEmpty(data.isbn), NullIfEmpty(data.genre),
              NullIfEmpty(data.publicationDate), NullIfEmpty(data.publisher),
              NullIfEmpty(data.description), data.copyNumber.GetOr(1), true, 0, createdBy);
    db.books := db.books[id := r];
    db.nextBookId := id + 1;
    db.LogAudit(AuditEntry(createdBy, CreateAction, BookEntity, id), auditStored);
  }

  method UpdateBook(db: Library, id: nat, p: BookPatch, updatedBy: nat, ghost auditStored: bool) returns (r: Result<Book>)
    requires db.Valid()
    modifies db
    ensures db.Valid()
    ensures var o := UpdateBookSpec(old(db.Snapshot()), id, p);
      r == o.result && db.Snapshot() == o.after
    ensures db.audit == old(db.audit) + (if r.Ok? && auditStored then [AuditEntry(updatedBy, UpdateAction, BookEntity, id)] else [])
  {
    var oldBook := GetBookById(db.Snapshot(), id);
    if oldBook.Err? {
      return oldBook;
    }
    var updates, row := CollectBookUpdates(oldBook.value, p);
    if |updates| == 0 {
      return Err(NoFieldsToUpdate);
    }
    ghost var o := UpdateBookSpec(db.Snapshot(), id, p);
    FollowsPatchDeterminesRow(oldBook.value, p, row, o.result.value);
    db.books := db.books[id := row];
    r := GetBookById(db.Snapshot(), id);
    db.LogAudit(AuditEntry(updatedBy, UpdateAction, BookEntity, id), auditStored);
  }

  method DeleteBook(db: Library, id: nat, deletedBy: nat, ghost auditStored: bool) returns (r: Result<()>)
    requires db.Valid()
    modifies db
    ensures db.Valid()
    ensures var o := DeleteBookSpec(old(db.Snapshot()), id);
      r == o.result && db.Snapshot() == o.after
    ensures db.audit == old(db.audit) + (if r.Ok? && auditStored then [AuditEntry(deletedBy, DeleteAction, BookEntity, id)] else [])
  {
    var book := GetBookById(db.Snapshot(), id);
    if book.Err? {
      return Err(book.error);
    }
    if HasBorrowedLoan(db.Snapshot(), id) {
      return Err(BookCurrentlyBorrowed);
    }
    db.books := db.books - {id};
    r := Ok(());
    db.LogAudit(AuditEntry(deletedBy, DeleteAction, BookEntity, id), auditStored);
  }

  // ---------------------------------------------------------------------------
  // The availability rule across catalogue changes

  /** A new book starts available with no loan, so the rule still holds. */
  lemma CreateBookKeepsLoansConsistent(t: Tables, data: NewBook, createdBy: nat)
    requires t.Valid() && LoansConsistent(t)
    ensures LoansConsistent(CreateBookSpec(t, data, createdBy).after)
  {
    var o := CreateBookSpec(t, data, createdBy);
    var b := o.result.value;
    assert forall id :: id in t.transactions ==> t.transactions[id].bookId != b.id;
    assert !HasOpenLoan(o.after, b.id);
  }

  /** Removing a book leaves the rule holding for the others. */
  lemma DeleteBookKeepsLoansConsistent(t: Tables, id: nat)
    requires t.Valid() && LoansConsistent(t)
    ensures LoansConsistent(DeleteBookSpec(t, id).after)
  {
  }

  /** An update that leaves is_available alone keeps the rule. */
  lemma UpdateBookKeepsLoansConsistent(t: Tables, id: nat, p: BookPatch)
    requires t.Valid() && LoansConsistent(t)
    requires p.isAvailable.None?
    ensures LoansConsistent(UpdateBookSpec(t, id, p).after)
  {
    var o := UpdateBookSpec(t, id, p);
    if o.result.Ok? {
      assert FieldOf(o.after.books[id], IsAvailable) == FieldOf(t.books[id], IsAvailable);
      assert forall b :: b in o.after.books ==> HasOpenLoan(o.after, b) == HasOpenLoan(t, b);
    }
  }

  /** An update that supplies is_available = true for a book on loan breaks the
      rule: the book can then be lent a second time. */
  lemma UpdateBookCanReleaseALentBook(t: Tables, id: nat, p: BookPatch)
    requires t.Valid() && id in t.books && HasOpenLoan(t, id)
    requires p.isAvailable == Some(true)
    ensures !LoansConsistent(UpdateBookSpec(t, id, p).after)
  {
    var o := UpdateBookSpec(t, id, p);
    assert Supplied(p, IsAvailable).Some?;
    assert FieldOf(o.after.books[id], IsAvailable) == Flag(true);
    assert HasOpenLoan(o.after, id);
  }
}
