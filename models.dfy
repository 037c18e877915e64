/** The IssuedBook record, its overridden save() and the Book availability flag it keeps
    (myproject/myapp/models.py). */
module Models {

  type BookId = nat
  type MemberId = nat
  type EditionId = nat
  /** A calendar date as a day number: `today + 14` is two weeks later. */
  type Day = int

  datatype Option<T> = None | Some(value: T)

  /** The five STATUS_CHOICES of an IssuedBook. */
  datatype Status = Requested | Issued | Returned | Overdue | Rejected

  /** The status of an IssuedBook created without one. */
  const DefaultStatus: Status := Requested

  /** The loan period, in days, behind every due date the application sets. */
  const LoanDays: int := 14

  datatype Author = Author(firstName: string, lastName: string)

  /** A Book row. `category` is the name of its Category (category names are unique);
      `edition` is the Edition that points at this book, if any. */
  datatype Book = Book(title: string, authors: seq<Author>, category: Option<string>,
                       edition: Option<EditionId>, isAvailable: bool)

  /** An IssuedBook row. A `returnDate` of None is a due date that was never set. */
  datatype Row = Row(member: MemberId, book: BookId, edition: Option<EditionId>, issueDate: Day,
                     returnDate: Option<Day>, actualReturnDate: Option<Day>, status: Status)

  /** The two tables the lending lifecycle touches: Book rows by id, and IssuedBook rows
      whose primary key is their position. */
  datatype Db = Db(books: map<BookId, Book>, rows: seq<Row>)

  /** A Book as it is created: is_available defaults to true. */
  function NewBook(title: string, authors: seq<Author>, category: Option<string>,
                   edition: Option<EditionId>): (b: Book)
    ensures b.isAvailable
    ensures b.title == title && b.authors == authors && b.category == category && b.edition == edition
  {
    Book(title, authors, category, edition, true)
  }

  /** Every IssuedBook row refers to an existing Book. */
  predicate WellFormed(db: Db)
  {
    forall i :: 0 <= i < |db.rows| ==> db.rows[i].book in db.books
  }

  /** Some IssuedBook row for book `b` is ISSUED. */
  predicate HasIssued(rows: seq<Row>, b: BookId)
  {
    exists i :: 0 <= i < |rows| && rows[i].book == b && rows[i].status == Issued
  }

  /** The availability rule: a Book is available exactly when none of its records is ISSUED. */
  predicate Consistent(db: Db)
  {
    WellFormed(db) &&
    forall b :: b in db.books ==> (db.books[b].isAvailable <==> !HasIssued(db.rows, b))
  }

  /** No two records for one Book are ISSUED at the same time. */
  predicate AtMostOneIssued(rows: seq<Row>)
  {
    forall i, j ::
      (0 <= i < |rows| && 0 <= j < |rows| && i != j && rows[i].book == rows[j].book && rows[i].status == Issued)
      ==> rows[j].status != Issued
  }

  /** A record that is still waiting or out on loan. */
  predicate Active(s: Status)
  {
    s == Requested || s == Issued
  }

  /** No member holds two active records for the same Book. */
  predicate NoDuplicateActive(rows: seq<Row>)
  {
    forall i, j ::
      (0 <= i < |rows| && 0 <= j < |rows| && i != j && rows[i].member == rows[j].member &&
       rows[i].book == rows[j].book && Active(rows[i].status))
      ==> !Active(rows[j].status)
  }

  /** Every record keeps its member and Book, and none becomes active that was not active. */
  predicate NoNewActive(before: seq<Row>, after: seq<Row>)
  {
    |after| == |before| &&
    forall i :: 0 <= i < |after| ==>
      after[i].member == before[i].member && after[i].book == before[i].book &&
      (Active(after[i].status) ==> Active(before[i].status))
  }

  /** A change that activates no record cannot create a second active request. */
  lemma NoNewActiveKeepsNoDuplicate(before: seq<Row>, after: seq<Row>)
    requires NoDuplicateActive(before) && NoNewActive(before, after)
    ensures NoDuplicateActive(after)
  {
  }

  /** `after` has the same Books and records as `before`; only availability flags and the
      mutable record fields (status and dates of return) may differ. */
  predicate SameShape(before: Db, after: Db)
  {
    after.books.Keys == before.books.Keys &&
    (forall b :: b in before.books ==>
      after.books[b].(isAvailable := false) == before.books[b].(isAvailable := false)) &&
    |after.rows| == |before.rows| &&
    (forall i :: 0 <= i < |before.rows| ==>
      after.rows[i].member == before.rows[i].member && after.rows[i].book == before.rows[i].book &&
      after.rows[i].edition == before.rows[i].edition && after.rows[i].issueDate == before.rows[i].issueDate)
  }

  /** The value the save hook writes to the Book's is_available, if it writes one: `rows` is the
      table after the record itself was written, `original` the status the object remembered. */
  function HookWrite(rows: seq<Row>, b: BookId, status: Status, original: Status): (w: Option<bool>)
    ensures w == Some(false) <==> status != original && status == Issued
    ensures w == Some(true) <==>
      original == Issued && (status == Returned || status == Rejected) && !HasIssued(rows, b)
  {
    if status == original then None
    else if status == Issued then Some(false)
    else if (status == Returned || status == Rejected) && original == Issued then
      if !HasIssued(rows, b) then Some(true) else None
    else None
  }

  /** book.save(update_fields=['is_available']): only that one flag of that one Book changes. */
  function ApplyWrite(books: map<BookId, Book>, b: BookId, w: Option<bool>): (r: map<BookId, Book>)
    requires b in books
    ensures r.Keys == books.Keys
    ensures forall c :: c in books && c != b ==> r[c] == books[c]
    ensures r[b] == books[b].(isAvailable := r[b].isAvailable)
    ensures w.None? ==> r == books
    ensures w.Some? ==> r[b].isAvailable == w.value
  {
    match w
    case None => books
    case Some(v) => books[b := books[b].(isAvailable := v)]
  }

  /** The store after IssuedBook.save(): the row is written (updated at `pk`, or appended when
      the object has no primary key yet), then the hook runs against the written table. */
  function Saved(db: Db, pk: Option<nat>, row: Row, original: Status): (r: Db)
    requires row.book in db.books
    requires pk.Some? ==> pk.value < |db.rows|
    ensures r.books.Keys == db.books.Keys
    ensures forall c :: c in db.books && c != row.book ==> r.books[c] == db.books[c]
  {
    var rows := if pk.Some? then db.rows[pk.value := row] else db.rows + [row];
    Db(ApplyWrite(db.books, row.book, HookWrite(rows, row.book, row.status, original)), rows)
  }

  /** A save writes the row at its primary key, or appends it when it has none, and leaves every
      other row as it was. */
  lemma SavedWritesRow(db: Db, pk: Option<nat>, row: Row, original: Status)
    requires row.book in db.books
    requires pk.Some? ==> pk.value < |db.rows|
    ensures var r := Saved(db, pk, row, original);
      var at := if pk.Some? then pk.value else |db.rows|;
      && |r.rows| == (if pk.Some? then |db.rows| else |db.rows| + 1)
      && r.rows[at] == row
      && (forall i :: 0 <= i < |db.rows| && i != at ==> r.rows[i] == db.rows[i])
  {
  }

  /** Saving an existing record that keeps its member, Book, edition and issue date keeps the
      store's shape. */
  lemma SavedSameShape(db: Db, id: nat, row: Row, original: Status)
    requires id < |db.rows| && row.book in db.books
    requires row.member == db.rows[id].member && row.book == db.rows[id].book
    requires row.edition == db.rows[id].edition && row.issueDate == db.rows[id].issueDate
    ensures SameShape(db, Saved(db, Some(id), row, original))
  {
    SavedWritesRow(db, Some(id), row, original);
  }

  lemma SameShapeTrans(a: Db, b: Db, c: Db)
    requires SameShape(a, b) && SameShape(b, c)
    ensures SameShape(a, c)
  {
  }

  lemma SameShapeKeepsWellFormed(a: Db, b: Db)
    requires WellFormed(a) && SameShape(a, b)
    ensures WellFormed(b)
  {
  }

  /** What save() does to availability, case by case. */
  lemma SaveHookEffect(db: Db, pk: Option<nat>, row: Row, original: Status)
    requires row.book in db.books
    requires pk.Some? ==> pk.value < |db.rows|
    ensures var r := Saved(db, pk, row, original);
      && r.books.Keys == db.books.Keys
      && (forall c :: c in db.books && c != row.book ==> r.books[c] == db.books[c])
      && (row.status != original && row.status == Issued ==> !r.books[row.book].isAvailable)
      && (original == Issued && (row.status == Returned || row.status == Rejected) ==>
            r.books[row.book].isAvailable == (db.books[row.book].isAvailable || !HasIssued(r.rows, row.book)))
      && (row.status != Issued && original != Issued ==> r.books == db.books)
      && (row.status == Overdue || row.status == original ==> r.books == db.books)
      && (original == Issued && row.status == Requested ==> r.books == db.books)
  {
  }

  /** A second save without a status change leaves the store as the first save left it, whether
      the first save updated an existing record or created it. */
  lemma SaveIdempotent(db: Db, pk: Option<nat>, row: Row, original: Status)
    requires row.book in db.books && (pk.Some? ==> pk.value < |db.rows|)
    ensures var once := Saved(db, pk, row, original);
      var at := if pk.Some? then pk.value else |db.rows|;
      Saved(once, Some(at), row, row.status) == once
  {
  }

  /** How HasIssued changes when the record at `id` is overwritten by one for the same Book. */
  lemma HasIssuedAfterUpdate(rows: seq<Row>, id: nat, row: Row, c: BookId)
    requires id < |rows| && rows[id].book == row.book
    ensures c != row.book ==> (HasIssued(rows[id := row], c) <==> HasIssued(rows, c))
    ensures row.status != Issued && HasIssued(rows[id := row], c) ==> HasIssued(rows, c)
    ensures rows[id].status != Issued && HasIssued(rows, c) ==> HasIssued(rows[id := row], c)
    ensures row.status == Issued ==> HasIssued(rows[id := row], row.book)
    ensures rows[id].status == Issued ==> HasIssued(rows, row.book)
  {
    var rows' := rows[id := row];
    if HasIssued(rows', c) && (c != row.book || row.status != Issued) {
      var i :| 0 <= i < |rows'| && rows'[i].book == c && rows'[i].status == Issued;
      assert i != id;
      assert rows[i] == rows'[i];
    }
    if HasIssued(rows, c) && (c != row.book || rows[id].status != Issued) {
      var i :| 0 <= i < |rows| && rows[i].book == c && rows[i].status == Issued;
      assert i != id;
      assert rows'[i] == rows[i];
    }
    assert rows'[id] == row;
  }

  /** How HasIssued changes when a record is appended. */
  lemma HasIssuedAfterAppend(rows: seq<Row>, row: Row, c: BookId)
    ensures HasIssued(rows + [row], c) <==> HasIssued(rows, c) || (row.book == c && row.status == Issued)
  {
    var rows' := rows + [row];
    if HasIssued(rows', c) {
      var i :| 0 <= i < |rows'| && rows'[i].book == c && rows'[i].status == Issued;
      if i < |rows| {
        assert rows[i] == rows'[i];
      }
    }
    if HasIssued(rows, c) {
      var i :| 0 <= i < |rows| && rows[i].book == c && rows[i].status == Issued;
      assert rows'[i] == rows[i];
    }
    assert rows'[|rows|] == row;
  }

  /** Saving an existing record keeps the availability rule, for every status change except leaving
      ISSUED for REQUESTED or OVERDUE, which the hook does not recompute. */
  lemma {:induction false} SaveKeepsConsistent(db: Db, id: nat, row: Row)
    requires Consistent(db) && id < |db.rows| && row.book == db.rows[id].book
    requires !(db.rows[id].status == Issued && (row.status == Requested || row.status == Overdue))
    ensures Consistent(Saved(db, Some(id), row, db.rows[id].status))
  {
    var r := Saved(db, Some(id), row, db.rows[id].status);
    forall c | c in r.books
      ensures r.books[c].isAvailable <==> !HasIssued(r.rows, c)
    {
      HasIssuedAfterUpdate(db.rows, id, row, c);
    }
    assert WellFormed(r) by {
      forall i | 0 <= i < |r.rows| ensures r.rows[i].book in r.books {
        assert r.rows[i].book == db.rows[i].book;
      }
    }
  }

  /** Creating a record that is not ISSUED keeps the availability rule. */
  lemma {:induction false} CreateKeepsConsistent(db: Db, row: Row)
    requires Consistent(db) && row.book in db.books && row.status != Issued
    ensures Consistent(Saved(db, None, row, row.status))
  {
    var r := Saved(db, None, row, row.status);
    forall c | c in r.books
      ensures r.books[c].isAvailable <==> !HasIssued(r.rows, c)
    {
      HasIssuedAfterAppend(db.rows, row, c);
    }
    assert WellFormed(r) by {
      forall i | 0 <= i < |r.rows| ensures r.rows[i].book in r.books {
        if i < |db.rows| {
          assert r.rows[i] == db.rows[i];
        }
      }
    }
  }

  /** Adding a new Book (available by default) keeps the availability rule. */
  lemma {:induction false} AddBookKeepsConsistent(db: Db, id: BookId, title: string, authors: seq<Author>,
                                                  category: Option<string>, edition: Option<EditionId>)
    requires Consistent(db) && id !in db.books
    ensures Consistent(Db(db.books[id := NewBook(title, authors, category, edition)], db.rows))
  {
    forall i | 0 <= i < |db.rows| ensures db.rows[i].book != id {
      assert db.rows[i].book in db.books;
    }
  }

  /** ISSUED -> OVERDUE -> RETURNED leaves a Book unavailable with no record ISSUED: the hook only
      recomputes availability when the remembered status is ISSUED. */
  lemma OverdueReturnStrandsBook()
    ensures var row := Row(1, 0, None, 0, Some(14), None, Issued);
      var db0 := Db(map[0 := Book("T", [], None, None, false)], [row]);
      var db1 := Saved(db0, Some(0), row.(status := Overdue), Issued);
      var db2 := Saved(db1, Some(0), row.(status := Returned, actualReturnDate := Some(20)), Overdue);
      Consistent(db0) && !HasIssued(db2.rows, 0) && !db2.books[0].isAvailable && !Consistent(db2)
  {
    var row := Row(1, 0, None, 0, Some(14), None, Issued);
    var db0 := Db(map[0 := Book("T", [], None, None, false)], [row]);
    assert HasIssued(db0.rows, 0) by {
      assert db0.rows[0].book == 0 && db0.rows[0].status == Issued;
    }
  }

  /** Re-pointing an ISSUED record to another Book, status unchanged, breaks the availability
      rule: the hook only looks at status changes, so the old Book stays unavailable with no ISSUED
      record and the new Book stays available while holding one. */
  lemma RepointIssuedBreaksRule()
    ensures var row := Row(1, 0, None, 0, Some(14), None, Issued);
      var db := Db(map[0 := Book("T", [], None, None, false), 1 := NewBook("U", [], None, None)], [row]);
      var r := Saved(db, Some(0), row.(book := 1), Issued);
      Consistent(db) && r.books[0] == db.books[0] && r.books[1] == db.books[1] && !Consistent(r)
  {
    var row := Row(1, 0, None, 0, Some(14), None, Issued);
    var db := Db(map[0 := Book("T", [], None, None, false), 1 := NewBook("U", [], None, None)], [row]);
    assert HasIssued(db.rows, 0) by {
      assert db.rows[0].book == 0 && db.rows[0].status == Issued;
    }
    var r := Saved(db, Some(0), row.(book := 1), Issued);
    assert HasIssued(r.rows, 1) by {
      assert r.rows[0].book == 1 && r.rows[0].status == Issued;
    }
  }

  /** Creating a record already ISSUED does not mark its Book unavailable: the object remembers
      ISSUED from construction, so save() sees no change. */
  lemma CreateIssuedSkipsHook()
    ensures var db := Db(map[0 := NewBook("T", [], None, None)], []);
      var r := Saved(db, None, Row(1, 0, None, 0, Some(14), None, Issued), Issued);
      Consistent(db) && r.books[0].isAvailable && HasIssued(r.rows, 0) && !Consistent(r)
  {
    var r := Saved(Db(map[0 := NewBook("T", [], None, None)], []), None,
                   Row(1, 0, None, 0, Some(14), None, Issued), Issued);
    assert r.rows[0].book == 0 && r.rows[0].status == Issued;
  }

  /** The database: the Book and IssuedBook tables. */
  class Store {
    var books: map<BookId, Book>
    var rows: seq<Row>

    function State(): Db
      reads this
    {
      Db(books, rows)
    }

    constructor ()
      ensures State() == Db(map[], [])
    {
      books := map[];
      rows := [];
    }
  }

  /** An IssuedBook model object: the fields of one row, the status it remembers
      (`__original_status`), and the is_available of the Book object it holds. */
  class IssuedBook {
    var pk: Option<nat>
    var member: MemberId
    var book: BookId
    var edition: Option<EditionId>
    var issueDate: Day
    var returnDate: Option<Day>
    var actualReturnDate: Option<Day>
    var status: Status
    var originalStatus: Status
    var bookIsAvailable: bool

    function AsRow(): Row
      reads this
    {
      Row(member, book, edition, issueDate, returnDate, actualReturnDate, status)
    }

    /** A new, unsaved record; it remembers the status it was built with. */
    constructor (member: MemberId, book: BookId, edition: Option<EditionId>, issueDate: Day,
                 returnDate: Option<Day>, bookIsAvailable: bool, status: Status := DefaultStatus)
      ensures pk == None && AsRow() == Row(member, book, edition, issueDate, returnDate, None, status)
      ensures originalStatus == status && this.bookIsAvailable == bookIsAvailable
    {
      this.pk := None;
      this.member := member;
      this.book := book;
      this.edition := edition;
      this.issueDate := issueDate;
      this.returnDate := returnDate;
      this.actualReturnDate := None;
      this.status := status;
      this.originalStatus := status;
      this.bookIsAvailable := bookIsAvailable;
    }

    /** The object the ORM builds for row `id`, holding a Book object whose is_available
        was `bookIsAvailable` when it was loaded. */
    constructor Load(id: nat, row: Row, bookIsAvailable: bool)
      ensures pk == Some(id) && AsRow() == row && originalStatus == row.status
      ensures this.bookIsAvailable == bookIsAvailable
    {
      this.pk := Some(id);
      this.member := row.member;
      this.book := row.book;
      this.edition := row.edition;
      this.issueDate := row.issueDate;
      this.returnDate := row.returnDate;
      this.actualReturnDate := row.actualReturnDate;
      this.status := row.status;
      this.originalStatus := row.status;
      this.bookIsAvailable := bookIsAvailable;
    }

    /** save(): write the row, then, if the status differs from the remembered one, update the
        Book's availability; finally remember the current status. */
    method Save(store: Store)
      requires book in store.books
      requires pk.Some? ==> pk.value < |store.rows|
      modifies this, store
      ensures store.State() == Saved(old(store.State()), old(pk), old(AsRow()), old(originalStatus))
      ensures AsRow() == old(AsRow())
      ensures pk == if old(pk).Some? then old(pk) else Some(|old(store.rows)|)
      ensures originalStatus == status
      ensures bookIsAvailable == match HookWrite(store.rows, book, status, old(originalStatus))
                                 case Some(v) => v
                                 case None => old(bookIsAvailable)
    {
      if pk.Some? {
        store.rows := store.rows[pk.value := AsRow()];
      } else {
        pk := Some(|store.rows|);
        store.rows := store.rows + [AsRow()];
      }
      if status != originalStatus {
        if status == Issued {
          bookIsAvailable := false;
          store.books := store.books[book := store.books[book].(isAvailable := bookIsAvailable)];
        } else if (status == Returned || status == Rejected) && originalStatus == Issued {
          if !HasIssued(store.rows, book) {
            bookIsAvailable := true;
            store.books := store.books[book := store.books[book].(isAvailable := bookIsAvailable)];
          }
        }
      }
      originalStatus := status;
    }
  }
}
