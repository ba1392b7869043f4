/** Residents who borrow: registration under a normalised apartment code,
    updates, deletion, lookup, and the per-apartment count of books out. */
module BorrowerService {
  import opened Records
  import opened Database
  import opened ApartmentValidator

  /** A registration request. */
  datatype NewBorrower = NewBorrower(
    fullName: string,
    apartmentNumber: string,
    email: Option<string>,
    phone: string,
    notes: Option<string>)

  /** An update request; a field the request leaves out is None. */
  datatype BorrowerPatch = BorrowerPatch(
    fullName: Option<string>,
    apartmentNumber: Option<string>,
    email: Option<string>,
    phone: Option<string>,
    notes: Option<string>,
    exitDate: Option<string>,
    isActive: Option<bool>)

  /** The columns an update writes, in the order updateBorrower adds them. */
  datatype BorrowerColumn =
    | FullNameColumn | ApartmentNumberColumn | WingColumn | FloorColumn | UnitColumn
    | EmailColumn | PhoneColumn | NotesColumn | ExitDateColumn | IsActiveColumn

  predicate PatchIsEmpty(p: BorrowerPatch) {
    && p.fullName.None? && p.apartmentNumber.None? && p.email.None? && p.phone.None?
    && p.notes.None? && p.exitDate.None? && p.isActive.None?
  }

  /** The four apartment columns of a row hold exactly the parser's output. */
  predicate HasParsedApartment(b: Borrower, p: ParsedApartment) {
    b.apartmentNumber == p.apartmentNumber && b.wing == p.wing && b.floor == p.floor && b.unit == p.unit
  }

  /** Every stored apartment is in canonical form: parsing it gives back the row's own columns. */
  ghost predicate ApartmentsCanonical(t: Tables) {
    forall id :: id in t.borrowers ==> CanonicalApartment(t.borrowers[id])
  }

  /** Parsing the row's apartment_number gives back its wing, floor and unit. */
  ghost predicate CanonicalApartment(b: Borrower) {
    ParseApartmentNumber(b.apartmentNumber) == Some(ParsedApartment(b.wing, b.floor, b.unit, b.apartmentNumber))
  }

  /** An active borrower of that apartment already goes by that name. */
  predicate HasActiveNamesake(t: Tables, apartment: string, fullName: string) {
    exists id :: id in t.borrowers && t.borrowers[id].apartmentNumber == apartment
      && t.borrowers[id].fullName == fullName && t.borrowers[id].isActive
  }

  /** No two active borrowers share both apartment and name. */
  ghost predicate ActiveNamesUnique(t: Tables) {
    forall i, j ::
      (i in t.borrowers && j in t.borrowers && t.borrowers[i].isActive && t.borrowers[j].isActive
       && t.borrowers[i].apartmentNumber == t.borrowers[j].apartmentNumber
       && t.borrowers[i].fullName == t.borrowers[j].fullName) ==> i == j
  }

  /** getBorrowerById: the row, or a 404 when there is none. */
  function GetBorrowerById(t: Tables, id: nat): (r: Result<Borrower>)
    ensures r.Ok? <==> id in t.borrowers
    ensures r.Ok? ==> r.value == t.borrowers[id]
    ensures r.Err? ==> r.error == BorrowerNotFound && r.error.Status() == 404
  {
    if id in t.borrowers then Ok(t.borrowers[id]) else Err(BorrowerNotFound)
  }

  /** The loans with status 'borrowed' whose borrower lives in the apartment. */
  function BorrowedLoansOf(t: Tables, apartment: string): set<nat> {
    set id | id in t.transactions && t.transactions[id].status == Borrowed
      && t.transactions[id].borrowerId in t.borrowers
      && t.borrowers[t.transactions[id].borrowerId].apartmentNumber == apartment
  }

  /** getApartmentBorrowCount: how many loans still marked 'borrowed' belong to
      any borrower of the apartment; loans swept to 'overdue' are not counted. */
  function GetApartmentBorrowCount(t: Tables, apartment: string): (n: nat)
    ensures n <= |t.transactions|
    ensures n == 0 <==>
      (forall id :: id in t.transactions && t.transactions[id].status == Borrowed
                    && t.transactions[id].borrowerId in t.borrowers
                    ==> t.borrowers[t.transactions[id].borrowerId].apartmentNumber != apartment)
  {
    var loans := BorrowedLoansOf(t, apartment);
    SubsetIsNoLarger(loans, t.transactions.Keys);
    NoBorrowedLoanMeansEmpty(t, apartment);
    |loans|
  }

  lemma NoBorrowedLoanMeansEmpty(t: Tables, apartment: string)
    ensures BorrowedLoansOf(t, apartment) == {} <==>
      (forall id :: id in t.transactions && t.transactions[id].status == Borrowed
                    && t.transactions[id].borrowerId in t.borrowers
                    ==> t.borrowers[t.transactions[id].borrowerId].apartmentNumber != apartment)
  {
    var loans := BorrowedLoansOf(t, apartment);
    if loans != {} {
      var id :| id in loans;
    } else {
      forall id | id in t.transactions && t.transactions[id].status == Borrowed && t.transactions[id].borrowerId in t.borrowers
        ensures t.borrowers[t.transactions[id].borrowerId].apartmentNumber != apartment
      {
        assert id !in loans;
      }
    }
  }

  lemma {:induction false} SubsetIsNoLarger(a: set<nat>, b: set<nat>)
    requires a <= b
    ensures |a| <= |b|
    decreases b
  {
    if a != {} {
      var x :| x in a;
      SubsetIsNoLarger(a - {x}, b - {x});
    }
  }

  // ---------------------------------------------------------------------------
  // The operations on the store

  /** createBorrower: 400 for an apartment the parser rejects, 400 when an active
      borrower of the normalised apartment has the same name, otherwise a new
      active borrower whose apartment columns are the parser's output. */
  function CreateBorrowerSpec(t: Tables, data: NewBorrower, createdBy: nat): (o: Outcome<Borrower>)
    requires t.Valid()
    ensures o.after.Valid()
    ensures o.result.Err? ==> o.after == t
    ensures o.result == Err(InvalidApartment) <==> ParseApartmentNumber(data.apartmentNumber).None?
    ensures o.result == Err(DuplicateActiveBorrower) <==>
      && ParseApartmentNumber(data.apartmentNumber).Some?
      && HasActiveNamesake(t, ParseApartmentNumber(data.apartmentNumber).value.apartmentNumber, data.fullName)
    ensures o.result.Ok? ==>
      var b := o.result.value;
      && b.id !in t.borrowers && o.after.borrowers == t.borrowers[b.id := b]
      && o.after.books == t.books && o.after.transactions == t.transactions && o.after.settings == t.settings
      && HasParsedApartment(b, ParseApartmentNumber(data.apartmentNumber).value)
      && b.fullName == data.fullName && b.phone == data.phone
      && b.email == NullIfEmpty(data.email) && b.notes == NullIfEmpty(data.notes)
      && b.isActive && b.exitDate.None? && b.createdBy == createdBy
  {
    match ParseApartmentNumber(data.apartmentNumber)
    case None => Outcome(Err(InvalidApartment), t)
    case Some(parsed) =>
      if HasActiveNamesake(t, parsed.apartmentNumber, data.fullName) then
        Outcome(Err(DuplicateActiveBorrower), t)
      else
        var id := t.nextBorrowerId;
        var b := Borrower(id, data.fullName, parsed.apartmentNumber, parsed.wing, parsed.floor, parsed.unit,
                          NullIfEmpty(data.email), data.phone, None, true, NullIfEmpty(data.notes), createdBy);
        Outcome(Ok(b), t.(borrowers := t.borrowers[id := b], nextBorrowerId := id + 1))
  }

  /** The apartment an update asks for, as the parser reads it; None when the
      update leaves the apartment alone or the parser rejects it. */
  function RequestedApartment(p: BorrowerPatch): Option<ParsedApartment> {
    if p.apartmentNumber.Some? then ParseApartmentNumber(p.apartmentNumber.value) else None
  }

  /** The seven fields updateBorrower checks, in the order it checks them. */
  datatype BorrowerField = FullName | Apartment | Email | Phone | Notes | ExitDate | IsActive

  const CheckedFields: seq<BorrowerField> := [FullName, Apartment, Email, Phone, Notes, ExitDate, IsActive]

  /** The position of a field in CheckedFields. */
  function FieldIndex(f: BorrowerField): (k: nat)
    ensures k < |CheckedFields| && CheckedFields[k] == f
  {
    match f
    case FullName => 0
    case Apartment => 1
    case Email => 2
    case Phone => 3
    case Notes => 4
    case ExitDate => 5
    case IsActive => 6
  }

  lemma FieldIndexOfPosition(k: nat)
    requires k < |CheckedFields|
    ensures FieldIndex(CheckedFields[k]) == k
  {
    if k == 0 {} else if k == 1 {} else if k == 2 {} else if k == 3 {} else if k == 4 {} else if k == 5 {}
  }

  /** The field whose check queues the column. */
  function Owner(c: BorrowerColumn): BorrowerField {
    match c
    case FullNameColumn => FullName
    case ApartmentNumberColumn | WingColumn | FloorColumn | UnitColumn => Apartment
    case EmailColumn => Email
    case PhoneColumn => Phone
    case NotesColumn => Notes
    case ExitDateColumn => ExitDate
    case IsActiveColumn => IsActive
  }

  /** The columns a field's check queues; an apartment sets four at once. */
  function Columns(f: BorrowerField): (cs: seq<BorrowerColumn>)
    ensures |cs| > 0
    ensures forall c :: c in cs <==> Owner(c) == f
  {
    match f
    case FullName => [FullNameColumn]
    case Apartment => [ApartmentNumberColumn, WingColumn, FloorColumn, UnitColumn]
    case Email => [EmailColumn]
    case Phone => [PhoneColumn]
    case Notes => [NotesColumn]
    case ExitDate => [ExitDateColumn]
    case IsActive => [IsActiveColumn]
  }

  /** The value a field holds in a row; the apartment is its four columns together. */
  datatype FieldValue =
    | Text(text: string)
    | OptionalText(optionalText: Option<string>)
    | Place(place: ParsedApartment)
    | Flag(flag: bool)

  function FieldOf(b: Borrower, f: BorrowerField): FieldValue {
    match f
    case FullName => Text(b.fullName)
    case Apartment => Place(ParsedApartment(b.wing, b.floor, b.unit, b.apartmentNumber))
    case Email => OptionalText(b.email)
    case Phone => Text(b.phone)
    case Notes => OptionalText(b.notes)
    case ExitDate => OptionalText(b.exitDate)
    case IsActive => Flag(b.isActive)
  }

  /** The value an update supplies for a field, or None when it leaves the field
      out; the apartment's value is the parser's reading of it. */
  function Supplied(p: BorrowerPatch, apartment: Option<ParsedApartment>, f: BorrowerField): Option<FieldValue> {
    match f
    case FullName => if p.fullName.Some? then Some(Text(p.fullName.value)) else None
    case Apartment => if apartment.Some? then Some(Place(apartment.value)) else None
    case Email => if p.email.Some? then Some(OptionalText(p.email)) else None
    case Phone => if p.phone.Some? then Some(Text(p.phone.value)) else None
    case Notes => if p.notes.Some? then Some(OptionalText(p.notes)) else None
    case ExitDate => if p.exitDate.Some? then Some(OptionalText(p.exitDate)) else None
    case IsActive => if p.isActive.Some? then Some(Flag(p.isActive.value)) else None
  }

  /** `b'` is `b` with exactly the supplied fields replaced. */
  predicate FollowsBorrowerPatch(b: Borrower, p: BorrowerPatch, apartment: Option<ParsedApartment>, b': Borrower) {
    && b'.id == b.id && b'.createdBy == b.createdBy
    && forall f :: FieldOf(b', f) == Supplied(p, apartment, f).GetOr(FieldOf(b, f))
  }

  /** The assignments of one field's check. */
  function SetField(b: Borrower, p: BorrowerPatch, apartment: Option<ParsedApartment>, f: BorrowerField): (r: Borrower)
    requires Supplied(p, apartment, f).Some?
    ensures r.id == b.id && r.createdBy == b.createdBy
    ensures FieldOf(r, f) == Supplied(p, apartment, f).value
    ensures forall g :: g != f ==> FieldOf(r, g) == FieldOf(b, g)
  {
    match f
    case FullName => b.(fullName := p.fullName.value)
    case Apartment =>
      b.(apartmentNumber := apartment.value.apartmentNumber, wing := apartment.value.wing,
         floor := apartment.value.floor, unit := apartment.value.unit)
    case Email => b.(email := p.email)
    case Phone => b.(phone := p.phone.value)
    case Notes => b.(notes := p.notes)
    case ExitDate => b.(exitDate := p.exitDate)
    case IsActive => b.(isActive := p.isActive.value)
  }

  /** The row an update leaves behind. */
  function ApplyBorrowerPatch(b: Borrower, p: BorrowerPatch, apartment: Option<ParsedApartment>): Borrower {
    b.(fullName := p.fullName.GetOr(b.fullName),
       apartmentNumber := if apartment.Some? then apartment.value.apartmentNumber else b.apartmentNumber,
       wing := if apartment.Some? then apartment.value.wing else b.wing,
       floor := if apartment.Some? then apartment.value.floor else b.floor,
       unit := if apartment.Some? then apartment.value.unit else b.unit,
       email := if p.email.Some? then p.email else b.email,
       phone := p.phone.GetOr(b.phone),
       notes := if p.notes.Some? then p.notes else b.notes,
       exitDate := if p.exitDate.Some? then p.exitDate else b.exitDate,
       isActive := p.isActive.GetOr(b.isActive))
  }

  lemma ApplyBorrowerPatchFollowsPatch(b: Borrower, p: BorrowerPatch, apartment: Option<ParsedApartment>)
    ensures FollowsBorrowerPatch(b, p, apartment, ApplyBorrowerPatch(b, p, apartment))
  {
    var r := ApplyBorrowerPatch(b, p, apartment);
    forall f ensures FieldOf(r, f) == Supplied(p, apartment, f).GetOr(FieldOf(b, f)) {
      match f
      case FullName =>
      case Apartment =>
      case Email =>
      case Phone =>
      case Notes =>
      case ExitDate =>
      case IsActive =>
    }
  }

  /** A row is determined by its fields and the columns no update touches. */
  lemma FollowsBorrowerPatchDeterminesRow(b: Borrower, p: BorrowerPatch, apartment: Option<ParsedApartment>, r1: Borrower, r2: Borrower)
    requires FollowsBorrowerPatch(b, p, apartment, r1) && FollowsBorrowerPatch(b, p, apartment, r2)
    ensures r1 == r2
  {
    assert FieldOf(r1, FullName) == FieldOf(r2, FullName);
    assert FieldOf(r1, Apartment) == FieldOf(r2, Apartment);
    assert FieldOf(r1, Email) == FieldOf(r2, Email);
    assert FieldOf(r1, Phone) == FieldOf(r2, Phone);
    assert FieldOf(r1, Notes) == FieldOf(r2, Notes);
    assert FieldOf(r1, ExitDate) == FieldOf(r2, ExitDate);
    assert FieldOf(r1, IsActive) == FieldOf(r2, IsActive);
  }

  /** updateBorrower: 404 for a missing borrower, 400 for an apartment the parser
      rejects, 400 when no field is supplied, otherwise only the supplied fields
      change and a new apartment is stored as the parser reads it. */
  function UpdateBorrowerSpec(t: Tables, id: nat, p: BorrowerPatch): (o: Outcome<Borrower>)
    requires t.Valid()
    ensures o.after.Valid()
    ensures o.result.Err? ==> o.after == t
    ensures o.result == Err(BorrowerNotFound) <==> id !in t.borrowers
    ensures o.result == Err(InvalidApartment) <==>
      id in t.borrowers && p.apartmentNumber.Some? && RequestedApartment(p).None?
    ensures o.result == Err(NoFieldsToUpdate) <==> id in t.borrowers && PatchIsEmpty(p)
    ensures o.result.Ok? ==>
      && o.after == t.(borrowers := t.borrowers[id := o.result.value])
      && FollowsBorrowerPatch(t.borrowers[id], p, RequestedApartment(p), o.result.value)
  {
    match GetBorrowerById(t, id)
    case Err(e) => Outcome(Err(e), t)
    case Ok(b) =>
      var apartment := RequestedApartment(p);
      if p.apartmentNumber.Some? && apartment.None? then Outcome(Err(InvalidApartment), t)
      else if PatchIsEmpty(p) then Outcome(Err(NoFieldsToUpdate), t)
      else
        var row := ApplyBorrowerPatch(b, p, apartment);
        ApplyBorrowerPatchFollowsPatch(b, p, apartment);
        Outcome(Ok(row), t.(borrowers := t.borrowers[id := row]))
  }

  /** Some loan of the borrower still has status 'borrowed'. */
  predicate HasBorrowedLoanBy(t: Tables, borrowerId: nat) {
    exists id :: id in t.transactions && t.transactions[id].borrowerId == borrowerId
      && t.transactions[id].status == Borrowed
  }

  /** deleteBorrower: 404 for a missing borrower, 400 while one of their loans
      is still marked 'borrowed', otherwise the row is removed. */
  function DeleteBorrowerSpec(t: Tables, id: nat): (o: Outcome<()>)
    requires t.Valid()
    ensures o.after.Valid()
    ensures o.result.Err? ==> o.after == t
    ensures o.result == Err(BorrowerNotFound) <==> id !in t.borrowers
    ensures o.result == Err(BorrowerHasActiveLoans) <==> id in t.borrowers && HasBorrowedLoanBy(t, id)
    ensures o.result.Ok? ==>
      && o.after.borrowers.Keys == t.borrowers.Keys - {id}
      && (forall b :: b in o.after.borrowers ==> o.after.borrowers[b] == t.borrowers[b])
      && o.after == t.(borrowers := o.after.borrowers)
  {
    match GetBorrowerById(t, id)
    case Err(e) => Outcome(Err(e), t)
    case Ok(_) =>
      if HasBorrowedLoanBy(t, id) then Outcome(Err(BorrowerHasActiveLoans), t)
      else Outcome(Ok(()), t.(borrowers := t.borrowers - {id}))
  }

  method CreateBorrower(db: Library, data: NewBorrower, createdBy: nat, ghost auditStored: bool)
    returns (r: Result<Borrower>)
    requires db.Valid()
    modifies db
    ensures db.Valid()
    ensures var o := CreateBorrowerSpec(old(db.Snapshot()), data, createdBy);
      r == o.result && db.Snapshot() == o.after
    ensures db.audit == old(db.audit) + (if r.Ok? && auditStored then [AuditEntry(createdBy, CreateAction, BorrowerEntity, r.value.id)] else [])
  {
    var parsed := ParseApartmentNumber(data.apartmentNumber);
    if parsed.None? {
      return Err(InvalidApartment);
    }
    var formatted := parsed.value.apartmentNumber;
    if HasActiveNamesake(db.Snapshot(), formatted, data.fullName) {
      return Err(DuplicateActiveBorrower);
    }
    var id := db.nextBorrowerId;
    var b := Borrower(id, data.fullName, formatted, parsed.value.wing, parsed.value.floor, parsed.value.unit,
                      NullIfEmpty(data.email), data.phone, None, true, NullIfEmpty(data.notes), createdBy);
    db.borrowers := db.borrowers[id := b];
    db.nextBorrowerId := id + 1;
    r := Ok(b);
    db.LogAudit(AuditEntry(createdBy, CreateAction, BorrowerEntity, id), auditStored);
  }

  /** The update list is empty exactly when the request supplies no field. */
  lemma NoColumnsMeansEmptyPatch(p: BorrowerPatch, apartment: Option<ParsedApartment>, updates: seq<BorrowerColumn>)
    requires p.apartmentNumber.Some? <==> apartment.Some?
    requires forall c :: c in updates <==> Supplied(p, apartment, Owner(c)).Some?
    ensures |updates| == 0 <==> PatchIsEmpty(p)
  {
    if |updates| == 0 {
      forall f: BorrowerField ensures Supplied(p, apartment, f).None? {
        assert Columns(f)[0] !in updates;
      }
      assert Supplied(p, apartment, FullName).None? && Supplied(p, apartment, Apartment).None?;
      assert Supplied(p, apartment, Email).None? && Supplied(p, apartment, Phone).None?;
      assert Supplied(p, apartment, Notes).None? && Supplied(p, apartment, ExitDate).None?;
      assert Supplied(p, apartment, IsActive).None?;
    } else {
      assert updates[0] in updates;
      assert Supplied(p, apartment, Owner(updates[0])).Some?;
    }
  }

  /** The seven field checks of updateBorrower, in order: each supplied field
      queues its columns and gives the row its value. */
  method CollectBorrowerUpdates(b: Borrower, p: BorrowerPatch, apartment: Option<ParsedApartment>)
    returns (updates: seq<BorrowerColumn>, row: Borrower)
    requires p.apartmentNumber.Some? <==> apartment.Some?
    ensures forall c :: c in updates <==> Supplied(p, apartment, Owner(c)).Some?
    ensures |updates| == 0 <==> PatchIsEmpty(p)
    ensures FollowsBorrowerPatch(b, p, apartment, row)
  {
    updates, row := [], b;
    for i := 0 to |CheckedFields|
      invariant forall c :: c in updates <==> FieldIndex(Owner(c)) < i && Supplied(p, apartment, Owner(c)).Some?
      invariant row.id == b.id && row.createdBy == b.createdBy
      invariant forall f :: FieldOf(row, f) == (if FieldIndex(f) < i then Supplied(p, apartment, f).GetOr(FieldOf(b, f)) else FieldOf(b, f))
    {
      var f := CheckedFields[i];
      FieldIndexOfPosition(i);
      if Supplied(p, apartment, f).Some? {
        updates := updates + Columns(f);
        row := SetField(row, p, apartment, f);
      }
    }
    NoColumnsMeansEmptyPatch(p, apartment, updates);
  }

  /** The apartment is parsed before the columns are collected; the source parses
      it after queuing the name, which makes no difference since nothing is
      written before the parse can fail. */
  method UpdateBorrower(db: Library, id: nat, p: BorrowerPatch, updatedBy: nat, ghost auditStored: bool)
    returns (r: Result<Borrower>)
    requires db.Valid()
    modifies db
    ensures db.Valid()
    ensures var o := UpdateBorrowerSpec(old(db.Snapshot()), id, p);
      r == o.result && db.Snapshot() == o.after
    ensures db.audit == old(db.audit) + (if r.Ok? && auditStored then [AuditEntry(updatedBy, UpdateAction, BorrowerEntity, id)] else [])
  {
    var oldBorrower := GetBorrowerById(db.Snapshot(), id);
    if oldBorrower.Err? {
      return oldBorrower;
    }
    var apartment := RequestedApartment(p);
    if p.apartmentNumber.Some? && apartment.None? {
      return Err(InvalidApartment);
    }
    var updates, row := CollectBorrowerUpdates(oldBorrower.value, p, apartment);
    if |updates| == 0 {
      return Err(NoFieldsToUpdate);
    }
    ghost var o := UpdateBorrowerSpec(db.Snapshot(), id, p);
    FollowsBorrowerPatchDeterminesRow(oldBorrower.value, p, apartment, row, o.result.value);
    db.borrowers := db.borrowers[id := row];
    r := GetBorrowerById(db.Snapshot(), id);
    db.LogAudit(AuditEntry(updatedBy, UpdateAction, BorrowerEntity, id), auditStored);
  }

  method DeleteBorrower(db: Library, id: nat, deletedBy: nat, ghost auditStored: bool) returns (r: Result<()>)
    requires db.Valid()
    modifies db
    ensures db.Valid()
    ensures var o := DeleteBorrowerSpec(old(db.Snapshot()), id);
      r == o.result && db.Snapshot() == o.after
    ensures db.audit == old(db.audit) + (if r.Ok? && auditStored then [AuditEntry(deletedBy, DeleteAction, BorrowerEntity, id)] else [])
  {
    var borrower := GetBorrowerById(db.Snapshot(), id);
    if borrower.Err? {
      return Err(borrower.error);
    }
    if HasBorrowedLoanBy(db.Snapshot(), id) {
      return Err(BorrowerHasActiveLoans);
    }
    db.borrowers := db.borrowers - {id};
    r := Ok(());
    db.LogAudit(AuditEntry(deletedBy, DeleteAction, BorrowerEntity, id), auditStored);
  }

  // ---------------------------------------------------------------------------
  // Invariants of the borrowers table

  /** Registration stores only canonical apartments. */
  lemma CreateBorrowerKeepsApartmentsCanonical(t: Tables, data: NewBorrower, createdBy: nat)
    requires t.Valid() && ApartmentsCanonical(t)
    ensures ApartmentsCanonical(CreateBorrowerSpec(t, data, createdBy).after)
  {
    var o := CreateBorrowerSpec(t, data, createdBy);
    if o.result.Ok? {
      ParseIsIdempotent(data.apartmentNumber);
      assert CanonicalApartment(o.result.value);
      StoringCanonicalRowKeepsApartmentsCanonical(t, o.result.value.id, o.result.value, o.after);
    }
  }

  lemma StoringCanonicalRowKeepsApartmentsCanonical(t: Tables, id: nat, r: Borrower, t': Tables)
    requires ApartmentsCanonical(t) && CanonicalApartment(r)
    requires t'.borrowers == t.borrowers[id := r]
    ensures ApartmentsCanonical(t')
  {
    forall j | j in t'.borrowers ensures CanonicalApartment(t'.borrowers[j]) {
      if j != id {
        assert t'.borrowers[j] == t.borrowers[j];
      }
    }
  }

  /** A patched row keeps a canonical apartment: the old one, or the parser's
      reading of the new one. */
  lemma PatchedRowIsCanonical(b: Borrower, p: BorrowerPatch, r: Borrower)
    requires CanonicalApartment(b)
    requires p.apartmentNumber.Some? ==> RequestedApartment(p).Some?
    requires FollowsBorrowerPatch(b, p, RequestedApartment(p), r)
    ensures CanonicalApartment(r)
  {
    if p.apartmentNumber.Some? {
      var q := RequestedApartment(p).value;
      assert q == ParseApartmentNumber(p.apartmentNumber.value).value;
      ParseIsIdempotent(p.apartmentNumber.value);
      assert ParseApartmentNumber(q.apartmentNumber) == Some(q);
      assert FieldOf(r, Apartment) == Place(q);
      assert ParsedApartment(r.wing, r.floor, r.unit, r.apartmentNumber) == q;
    } else {
      assert FieldOf(r, Apartment) == FieldOf(b, Apartment);
    }
  }

  /** An update stores only canonical apartments. */
  lemma UpdateBorrowerKeepsApartmentsCanonical(t: Tables, id: nat, p: BorrowerPatch)
    requires t.Valid() && ApartmentsCanonical(t)
    ensures ApartmentsCanonical(UpdateBorrowerSpec(t, id, p).after)
  {
    var o := UpdateBorrowerSpec(t, id, p);
    if o.result.Ok? {
      PatchedRowIsCanonical(t.borrowers[id], p, o.result.value);
      StoringCanonicalRowKeepsApartmentsCanonical(t, id, o.result.value, o.after);
    }
  }

  /** Registration never creates a second active borrower with the same
      apartment and name; inactive namesakes do not count. */
  lemma CreateBorrowerKeepsActiveNamesUnique(t: Tables, data: NewBorrower, createdBy: nat)
    requires t.Valid() && ActiveNamesUnique(t)
    ensures ActiveNamesUnique(CreateBorrowerSpec(t, data, createdBy).after)
  {
    var o := CreateBorrowerSpec(t, data, createdBy);
    if o.result.Ok? {
      var b := o.result.value;
      assert !HasActiveNamesake(t, b.apartmentNumber, b.fullName);
    }
  }
}
