/** The librarian's batch actions on selected IssuedBook records (myproject/myapp/admin.py). */
module Admin {
  import opened Models

  datatype Action = Approve | Reject | MarkReturned

  /** What the actions report through message_user: the per-record warning of the approval, and
      the success line of each action with its count. */
  datatype Message =
    | NoLongerAvailable(title: string, member: MemberId)
    | Succeeded(action: Action, count: nat)

  predicate Distinct(s: seq<nat>)
  {
    forall i, j :: 0 <= i < j < |s| ==> s[i] != s[j]
  }

  /** queryset.filter(status=s): the selected primary keys that name a row in status `s`, in the
      order the queryset yields them. */
  function Selected(rows: seq<Row>, selection: seq<nat>, s: Status): (r: seq<nat>)
    ensures forall k :: 0 <= k < |r| ==> r[k] in selection && r[k] < |rows| && rows[r[k]].status == s
    ensures forall i :: i in selection && i < |rows| && rows[i].status == s ==> i in r
    ensures Distinct(selection) ==> Distinct(r)
    decreases |selection|
  {
    if selection == [] then []
    else
      var rest := Selected(rows, selection[1..], s);
      var i := selection[0];
      if i < |rows| && rows[i].status == s then [i] + rest else rest
  }

  /** Indices of the records whose status became `s`. */
  function Moved(before: seq<Row>, after: seq<Row>, s: Status): set<nat>
  {
    set i: nat | i < |before| && i < |after| && before[i].status != s && after[i].status == s
  }

  // ---------------------------------------------------------------------------------------------
  // approve_selected_requests

  /** Where the approval loop reads a Book's is_available: from the Book objects fetched together
      with the selected rows before the loop starts (list_select_related), or from the store at
      the moment the record is processed. */
  datatype Read = Preloaded(books: map<BookId, Book>) | Current

  predicate CanRead(read: Read, db: Db)
  {
    WellFormed(db) && (read.Preloaded? ==> read.books.Keys == db.books.Keys)
  }

  /** The Book as the record being approved sees it. */
  function Seen(read: Read, db: Db, b: BookId): (book: Book)
    requires CanRead(read, db) && b in db.books
    ensures read.Current? ==> book == db.books[b]
    ensures read.Preloaded? ==> book == read.books[b]
  {
    match read
    case Preloaded(m) => m[b]
    case Current => db.books[b]
  }

  /** The record as approval leaves it: ISSUED, and due LoanDays after `today` unless a due date
      is already set. */
  function Issue(row: Row, today: Day): (r: Row)
    ensures r.status == Issued && r.returnDate.Some?
    ensures row.returnDate.Some? ==> r.returnDate == row.returnDate
    ensures row.returnDate.None? ==> r.returnDate == Some(today + LoanDays)
    ensures r.(status := row.status, returnDate := row.returnDate) == row
  {
    row.(status := Issued, returnDate := if row.returnDate.None? then Some(today + LoanDays) else row.returnDate)
  }

  /** The state of a batch action: the store, the success counter and the warnings so far. */
  datatype Batch = Batch(db: Db, count: nat, messages: seq<Message>)

  /** One iteration of the approval loop for the record at `id`. */
  function ApproveOne(acc: Batch, id: nat, read: Read, today: Day): (r: Batch)
    requires CanRead(read, acc.db) && id < |acc.db.rows|
    ensures SameShape(acc.db, r.db)
    ensures r.count + |r.messages| == acc.count + |acc.messages| + 1
    ensures forall i :: 0 <= i < |acc.db.rows| && i != id ==> r.db.rows[i] == acc.db.rows[i]
    ensures r.count == acc.count + 1 || r.count == acc.count
    ensures r.count == acc.count + 1 ==>
      r.messages == acc.messages && r.db.rows[id] == Issue(acc.db.rows[id], today)
    ensures r.count == acc.count ==>
      r.db == acc.db && |r.messages| == |acc.messages| + 1 && r.messages[..|acc.messages|] == acc.messages
    ensures forall c :: c in acc.db.books && c != acc.db.rows[id].book ==> r.db.books[c] == acc.db.books[c]
    ensures r.count == acc.count + 1 && acc.db.rows[id].status != Issued ==> !r.db.books[acc.db.rows[id].book].isAvailable
    ensures r.count == acc.count + 1 <==> Seen(read, acc.db, acc.db.rows[id].book).isAvailable
    ensures r.count == acc.count ==>
      r.messages == acc.messages + [NoLongerAvailable(Seen(read, acc.db, acc.db.rows[id].book).title, acc.db.rows[id].member)]
  {
    var row := acc.db.rows[id];
    var seen := Seen(read, acc.db, row.book);
    if seen.isAvailable then
      Batch(Saved(acc.db, Some(id), Issue(row, today), row.status), acc.count + 1, acc.messages)
    else
      Batch(acc.db, acc.count, acc.messages + [NoLongerAvailable(seen.title, row.member)])
  }

  /** The approval loop over `targets`, as a left fold. */
  function ApproveAll(db: Db, targets: seq<nat>, read: Read, today: Day): (r: Batch)
    requires CanRead(read, db)
    requires forall k :: 0 <= k < |targets| ==> targets[k] < |db.rows|
    ensures SameShape(db, r.db)
    ensures r.count + |r.messages| == |targets|
    decreases |targets|
  {
    if targets == [] then Batch(db, 0, [])
    else
      var acc := ApproveAll(db, targets[..|targets| - 1], read, today);
      var r := ApproveOne(acc, targets[|targets| - 1], read, today);
      SameShapeTrans(db, acc.db, r.db);
      r
  }

  /** The approval fold over the first k + 1 targets is one more step after the first k. */
  lemma ApproveAllSnoc(db: Db, targets: seq<nat>, read: Read, today: Day, k: nat)
    requires CanRead(read, db) && k < |targets|
    requires forall j :: 0 <= j < |targets| ==> targets[j] < |db.rows|
    ensures ApproveAll(db, targets[..k + 1], read, today) ==
      ApproveOne(ApproveAll(db, targets[..k], read, today), targets[k], read, today)
  {
    assert targets[..k + 1][..k] == targets[..k];
  }

  /** The messages an action reports: its warnings, then a success line when the count is positive. */
  function Report(warnings: seq<Message>, action: Action, count: nat): (r: seq<Message>)
    ensures |r| == |warnings| + (if count > 0 then 1 else 0)
    ensures r[..|warnings|] == warnings
    ensures count > 0 ==> r[|warnings|] == Succeeded(action, count)
  {
    warnings + if count > 0 then [Succeeded(action, count)] else []
  }

  /** The body of the approval loop, reading availability as `read` says. */
  method ApproveBatch(store: Store, targets: seq<nat>, read: Read, today: Day)
    returns (count: nat, warnings: seq<Message>)
    requires CanRead(read, store.State())
    requires forall k :: 0 <= k < |targets| ==> targets[k] < |store.rows|
    modifies store
    ensures Batch(store.State(), count, warnings) == ApproveAll(old(store.State()), targets, read, today)
  {
    ghost var db0 := store.State();
    count, warnings := 0, [];
    for k := 0 to |targets|
      invariant Batch(store.State(), count, warnings) == ApproveAll(db0, targets[..k], read, today)
    {
      ApproveAllSnoc(db0, targets, read, today, k);
      count, warnings := ApproveRecord(store, targets[k], read, today, count, warnings);
    }
    assert targets[..|targets|] == targets;
  }

  /** One pass of the approval loop: load the record with its Book, and issue it if that Book
      reads as available, else warn. */
  method ApproveRecord(store: Store, id: nat, read: Read, today: Day, count: nat, warnings: seq<Message>)
    returns (count': nat, warnings': seq<Message>)
    requires CanRead(read, store.State()) && id < |store.rows|
    modifies store
    ensures Batch(store.State(), count', warnings') == ApproveOne(Batch(old(store.State()), count, warnings), id, read, today)
  {
    var seen := Seen(read, store.State(), store.rows[id].book);
    var req := new IssuedBook.Load(id, store.rows[id], seen.isAvailable);
    if req.bookIsAvailable {
      req.status := Issued;
      if req.returnDate.None? {
        req.returnDate := Some(today + LoanDays);
      }
      req.Save(store);
      count', warnings' := count + 1, warnings;
    } else {
      count', warnings' := count, warnings + [NoLongerAvailable(seen.title, req.member)];
    }
  }

  /** approve_selected_requests as written: each record sees its Book as it was loaded with the
      selected rows, before any of them was approved. */
  method ApproveSelectedRequests(store: Store, selection: seq<nat>, today: Day) returns (messages: seq<Message>)
    requires WellFormed(store.State()) && Distinct(selection)
    modifies store
    ensures var r := ApproveAll(old(store.State()), Selected(old(store.rows), selection, Requested),
                                Preloaded(old(store.books)), today);
      store.State() == r.db && messages == Report(r.messages, Approve, r.count) &&
      r.count == |Moved(old(store.rows), store.rows, Issued)|
    ensures old(Consistent(store.State())) ==> Consistent(store.State())
    ensures old(NoDuplicateActive(store.rows)) ==> NoDuplicateActive(store.rows)
  {
    var targets := Selected(store.rows, selection, Requested);
    var count, warnings := ApproveBatch(store, targets, Preloaded(store.books), today);
    ApproveCountsIssued(old(store.State()), targets, Preloaded(old(store.books)), today);
    if old(NoDuplicateActive(store.rows)) {
      ApproveKeepsNoDuplicate(old(store.State()), targets, Preloaded(old(store.books)), today);
    }
    messages := Report(warnings, Approve, count);
    if old(Consistent(store.State())) {
      ApproveKeepsConsistent(old(store.State()), targets, Preloaded(old(store.books)), today);
    }
  }

  /** approve_selected_requests with the availability re-read from the store for every record. */
  method ApproveSelectedRequestsFresh(store: Store, selection: seq<nat>, today: Day) returns (messages: seq<Message>)
    requires WellFormed(store.State()) && Distinct(selection)
    modifies store
    ensures var r := ApproveAll(old(store.State()), Selected(old(store.rows), selection, Requested), Current, today);
      store.State() == r.db && messages == Report(r.messages, Approve, r.count) &&
      r.count == |Moved(old(store.rows), store.rows, Issued)|
    ensures old(Consistent(store.State())) ==> Consistent(store.State())
    ensures old(Consistent(store.State()) && AtMostOneIssued(store.rows)) ==> AtMostOneIssued(store.rows)
    ensures old(NoDuplicateActive(store.rows)) ==> NoDuplicateActive(store.rows)
  {
    var targets := Selected(store.rows, selection, Requested);
    var count, warnings := ApproveBatch(store, targets, Current, today);
    ApproveCountsIssued(old(store.State()), targets, Current, today);
    if old(NoDuplicateActive(store.rows)) {
      ApproveKeepsNoDuplicate(old(store.State()), targets, Current, today);
    }
    messages := Report(warnings, Approve, count);
    if old(Consistent(store.State())) {
      ApproveKeepsConsistent(old(store.State()), targets, Current, today);
    }
    if old(Consistent(store.State()) && AtMostOneIssued(store.rows)) {
      FreshApproveKeepsOneIssued(old(store.State()), targets, today);
    }
  }

  // ---------------------------------------------------------------------------------------------
  // reject_selected_requests

  /** The bulk update: the target rows get status REJECTED, nothing else changes and save() is
      not called. */
  function RejectRows(rows: seq<Row>, targets: seq<nat>): (r: seq<Row>)
    ensures |r| == |rows|
  {
    seq(|rows|, i requires 0 <= i < |rows| => if i in targets then rows[i].(status := Rejected) else rows[i])
  }

  /** The bulk update sets REJECTED on the targets and changes nothing else: no other field of a
      target, and no record that is not a target. */
  lemma RejectLeavesOthers(rows: seq<Row>, targets: seq<nat>, i: nat)
    requires i < |rows|
    ensures RejectRows(rows, targets)[i] == if i in targets then rows[i].(status := Rejected) else rows[i]
  {
  }

  /** reject_selected_requests: the count update() returns is the number of rows it matched. */
  method RejectSelectedRequests(store: Store, selection: seq<nat>) returns (messages: seq<Message>)
    requires Distinct(selection)
    modifies store
    ensures var targets := Selected(old(store.rows), selection, Requested);
      store.rows == RejectRows(old(store.rows), targets) && store.books == old(store.books) &&
      messages == Report([], Reject, |targets|) &&
      |targets| == |Moved(old(store.rows), store.rows, Rejected)|
    ensures old(Consistent(store.State())) ==> Consistent(store.State())
    ensures old(NoDuplicateActive(store.rows)) ==> NoDuplicateActive(store.rows)
  {
    var targets := Selected(store.rows, selection, Requested);
    store.rows := RejectRows(store.rows, targets);
    RejectCount(old(store.rows), targets);
    if old(NoDuplicateActive(store.rows)) {
      RejectKeepsNoDuplicate(old(store.rows), targets);
    }
    messages := Report([], Reject, |targets|);
    if old(Consistent(store.State())) {
      RejectKeepsConsistent(old(store.State()), targets);
    }
  }

  // ---------------------------------------------------------------------------------------------
  // mark_as_returned_admin

  /** The record as the return action leaves it. */
  function Return(row: Row, today: Day): (r: Row)
    ensures r.status == Returned && r.actualReturnDate == Some(today)
    ensures r.member == row.member && r.book == row.book && r.edition == row.edition
    ensures r.issueDate == row.issueDate && r.returnDate == row.returnDate
  {
    row.(status := Returned, actualReturnDate := Some(today))
  }

  /** The return loop over `targets`, as a left fold. */
  function ReturnAll(db: Db, targets: seq<nat>, today: Day): (r: Db)
    requires WellFormed(db)
    requires forall k :: 0 <= k < |targets| ==> targets[k] < |db.rows|
    ensures SameShape(db, r)
    decreases |targets|
  {
    if targets == [] then db
    else
      var acc := ReturnAll(db, targets[..|targets| - 1], today);
      var id := targets[|targets| - 1];
      var row := Return(acc.rows[id], today);
      SavedSameShape(acc, id, row, acc.rows[id].status);
      SameShapeTrans(db, acc, Saved(acc, Some(id), row, acc.rows[id].status));
      Saved(acc, Some(id), row, acc.rows[id].status)
  }

  /** The return fold over the first k + 1 targets is one more save after the first k. */
  lemma ReturnAllSnoc(db: Db, targets: seq<nat>, today: Day, k: nat)
    requires WellFormed(db) && k < |targets|
    requires forall j :: 0 <= j < |targets| ==> targets[j] < |db.rows|
    ensures var acc := ReturnAll(db, targets[..k], today);
      var id := targets[k];
      ReturnAll(db, targets[..k + 1], today) == Saved(acc, Some(id), Return(acc.rows[id], today), acc.rows[id].status)
  {
    assert targets[..k + 1][..k] == targets[..k];
  }

  /** mark_as_returned_admin: every selected ISSUED record is saved as RETURNED today. */
  method MarkAsReturned(store: Store, selection: seq<nat>, today: Day) returns (messages: seq<Message>)
    requires WellFormed(store.State()) && Distinct(selection)
    modifies store
    ensures var targets := Selected(old(store.rows), selection, Issued);
      store.State() == ReturnAll(old(store.State()), targets, today) &&
      messages == Report([], MarkReturned, |targets|) &&
      |targets| == |Moved(old(store.rows), store.rows, Returned)|
    ensures old(Consistent(store.State())) ==> Consistent(store.State())
    ensures old(NoDuplicateActive(store.rows)) ==> NoDuplicateActive(store.rows)
  {
    ghost var db0 := store.State();
    var targets := Selected(store.rows, selection, Issued);
    var count := ReturnBatch(store, targets, today);
    messages := Report([], MarkReturned, count);
    ReturnBatchFacts(db0, selection, today);
  }

  /** The body of the return loop: save each target as RETURNED today, counting them. */
  method ReturnBatch(store: Store, targets: seq<nat>, today: Day) returns (count: nat)
    requires WellFormed(store.State())
    requires forall k :: 0 <= k < |targets| ==> targets[k] < |store.rows|
    modifies store
    ensures store.State() == ReturnAll(old(store.State()), targets, today)
    ensures count == |targets|
  {
    ghost var db0 := store.State();
    count := 0;
    for k := 0 to |targets|
      invariant store.State() == ReturnAll(db0, targets[..k], today)
      invariant count == k
    {
      SameShapeKeepsWellFormed(db0, store.State());
      ReturnAllSnoc(db0, targets, today, k);
      ReturnRecord(store, targets[k], today);
      count := count + 1;
    }
    assert targets[..|targets|] == targets;
  }

  /** What the return loop over the selected ISSUED records guarantees: it moves exactly those
      records, and keeps both invariants. */
  lemma ReturnBatchFacts(db: Db, selection: seq<nat>, today: Day)
    requires WellFormed(db) && Distinct(selection)
    ensures var targets := Selected(db.rows, selection, Issued);
      var r := ReturnAll(db, targets, today);
      && |targets| == |Moved(db.rows, r.rows, Returned)|
      && (Consistent(db) ==> Consistent(r))
      && (NoDuplicateActive(db.rows) ==> NoDuplicateActive(r.rows))
  {
    var targets := Selected(db.rows, selection, Issued);
    ReturnCount(db, targets, today);
    if Consistent(db) {
      ReturnKeepsConsistent(db, targets, today);
    }
    if NoDuplicateActive(db.rows) {
      ReturnActivatesNothing(db, targets, today);
      NoNewActiveKeepsNoDuplicate(db.rows, ReturnAll(db, targets, today).rows);
    }
  }

  /** One pass of the return loop: load the record, mark it RETURNED today and save it. */
  method ReturnRecord(store: Store, id: nat, today: Day)
    requires WellFormed(store.State()) && id < |store.rows|
    modifies store
    ensures var db := old(store.State());
      store.State() == Saved(db, Some(id), Return(db.rows[id], today), db.rows[id].status)
  {
    var req := new IssuedBook.Load(id, store.rows[id], store.books[store.rows[id].book].isAvailable);
    req.status := Returned;
    req.actualReturnDate := Some(today);
    req.Save(store);
  }

  // ---------------------------------------------------------------------------------------------
  // Properties of the actions

  /** Some target is a record for Book `b`. */
  predicate TargetsBook(rows: seq<Row>, targets: seq<nat>, b: BookId)
  {
    exists k :: 0 <= k < |targets| && targets[k] < |rows| && rows[targets[k]].book == b
  }

  lemma TargetsBookSnoc(rows: seq<Row>, targets: seq<nat>, b: BookId)
    requires targets != []
    ensures var n := |targets| - 1;
      TargetsBook(rows, targets, b) <==>
        TargetsBook(rows, targets[..n], b) || (targets[n] < |rows| && rows[targets[n]].book == b)
  {
    var n := |targets| - 1;
    if TargetsBook(rows, targets, b) {
      var k :| 0 <= k < |targets| && targets[k] < |rows| && rows[targets[k]].book == b;
      if k < n {
        assert targets[..n][k] == targets[k];
      }
    }
    if TargetsBook(rows, targets[..n], b) {
      var k :| 0 <= k < n && targets[..n][k] < |rows| && rows[targets[..n][k]].book == b;
      assert targets[k] == targets[..n][k];
    }
  }

  /** The last target of a distinct sequence does not occur earlier. */
  lemma LastNotInPrefix(targets: seq<nat>)
    requires targets != [] && Distinct(targets)
    ensures targets[|targets| - 1] !in targets[..|targets| - 1]
    ensures Distinct(targets[..|targets| - 1])
  {
  }

  /** Approval keeps the availability rule, whichever way it reads availability. */
  lemma {:induction false} ApproveKeepsConsistent(db: Db, targets: seq<nat>, read: Read, today: Day)
    requires CanRead(read, db) && Consistent(db)
    requires forall k :: 0 <= k < |targets| ==> targets[k] < |db.rows|
    ensures Consistent(ApproveAll(db, targets, read, today).db)
    decreases |targets|
  {
    if targets != [] {
      var prefix := targets[..|targets| - 1];
      ApproveKeepsConsistent(db, prefix, read, today);
      var acc := ApproveAll(db, prefix, read, today);
      var id := targets[|targets| - 1];
      if Seen(read, acc.db, acc.db.rows[id].book).isAvailable {
        SaveKeepsConsistent(acc.db, id, Issue(acc.db.rows[id], today));
      }
    }
  }

  /** Records that are not targets are left as they were. */
  lemma {:induction false} ApproveLeavesOthers(db: Db, targets: seq<nat>, read: Read, today: Day, i: nat)
    requires CanRead(read, db)
    requires forall k :: 0 <= k < |targets| ==> targets[k] < |db.rows|
    requires i < |db.rows| && i !in targets
    ensures ApproveAll(db, targets, read, today).db.rows[i] == db.rows[i]
    decreases |targets|
  {
    if targets != [] {
      var prefix := targets[..|targets| - 1];
      assert i !in prefix;
      ApproveLeavesOthers(db, prefix, read, today, i);
    }
  }

  /** Where approval as written leaves record `i`: issued if `i` is among the targets and its Book
      was available before the batch, as it was otherwise. Issuing a record twice is issuing it
      once. */
  lemma {:induction false} SnapshotApproveRowAt(db: Db, targets: seq<nat>, today: Day, i: nat)
    requires WellFormed(db) && i < |db.rows|
    requires forall j :: 0 <= j < |targets| ==> targets[j] < |db.rows|
    ensures var row := db.rows[i];
      ApproveAll(db, targets, Preloaded(db.books), today).db.rows[i] ==
        if i in targets && db.books[row.book].isAvailable then Issue(row, today) else row
    decreases |targets|
  {
    if targets != [] {
      var prefix := targets[..|targets| - 1];
      SnapshotApproveRowAt(db, prefix, today, i);
      assert i in targets <==> i in prefix || i == targets[|targets| - 1];
    }
  }

  /** As written (availability read from the Books preloaded with the rows), a selected record
      becomes ISSUED exactly when its Book was available before the batch. */
  lemma SnapshotApproveRecord(db: Db, targets: seq<nat>, today: Day, k: nat)
    requires WellFormed(db)
    requires forall j :: 0 <= j < |targets| ==> targets[j] < |db.rows|
    requires k < |targets|
    ensures var row := db.rows[targets[k]];
      ApproveAll(db, targets, Preloaded(db.books), today).db.rows[targets[k]] ==
        if db.books[row.book].isAvailable then Issue(row, today) else row
  {
    SnapshotApproveRowAt(db, targets, today, targets[k]);
  }

  /** As written, a Book ends the batch available exactly when it was available before and no
      selected REQUESTED record asked for it. */
  lemma {:induction false} SnapshotApproveBook(db: Db, targets: seq<nat>, today: Day, b: BookId)
    requires WellFormed(db) && Distinct(targets) && b in db.books
    requires forall j :: 0 <= j < |targets| ==> targets[j] < |db.rows| && db.rows[targets[j]].status == Requested
    ensures ApproveAll(db, targets, Preloaded(db.books), today).db.books[b].isAvailable ==
              (db.books[b].isAvailable && !TargetsBook(db.rows, targets, b))
    decreases |targets|
  {
    if targets != [] {
      var n := |targets| - 1;
      var prefix := targets[..n];
      var id := targets[n];
      LastNotInPrefix(targets);
      SnapshotApproveBook(db, prefix, today, b);
      TargetsBookSnoc(db.rows, targets, b);
      ApproveLeavesOthers(db, prefix, Preloaded(db.books), today, id);
    }
  }

  /** The success count is the number of records the loop moved to ISSUED. */
  lemma {:induction false} ApproveCountsIssued(db: Db, targets: seq<nat>, read: Read, today: Day)
    requires CanRead(read, db) && Distinct(targets)
    requires forall k :: 0 <= k < |targets| ==> targets[k] < |db.rows| && db.rows[targets[k]].status == Requested
    ensures var r := ApproveAll(db, targets, read, today);
      r.count == |Moved(db.rows, r.db.rows, Issued)|
    decreases |targets|
  {
    var r := ApproveAll(db, targets, read, today);
    if targets == [] {
      assert Moved(db.rows, r.db.rows, Issued) == {};
    } else {
      var n := |targets| - 1;
      var prefix := targets[..n];
      var id := targets[n];
      LastNotInPrefix(targets);
      ApproveCountsIssued(db, prefix, read, today);
      ApproveCountsStep(db, targets, read, today);
    }
  }

  /** The inductive step of `ApproveCountsIssued`: if the count matches the moved records after
      all but the last target, it still does after the last. */
  lemma ApproveCountsStep(db: Db, targets: seq<nat>, read: Read, today: Day)
    requires CanRead(read, db) && targets != []
    requires forall k :: 0 <= k < |targets| ==> targets[k] < |db.rows|
    requires db.rows[targets[|targets| - 1]].status == Requested
    requires targets[|targets| - 1] !in targets[..|targets| - 1]
    requires var acc := ApproveAll(db, targets[..|targets| - 1], read, today);
      acc.count == |Moved(db.rows, acc.db.rows, Issued)|
    ensures var r := ApproveAll(db, targets, read, today);
      r.count == |Moved(db.rows, r.db.rows, Issued)|
  {
    var n := |targets| - 1;
    var prefix := targets[..n];
    var id := targets[n];
    var acc := ApproveAll(db, prefix, read, today);
    var r := ApproveAll(db, targets, read, today);
    ApproveLeavesOthers(db, prefix, read, today, id);
    var issued := ApproveLastStep(db, targets, read, today);
    CountStep(db.rows, acc.db.rows, acc.count, r.db.rows, r.count, id, issued, Issue(acc.db.rows[id], today));
  }

  /** One step of the count: issuing a record not yet moved adds one to both sides. */
  lemma CountStep(orig: seq<Row>, mid: seq<Row>, midCount: nat, after: seq<Row>, afterCount: nat,
                  id: nat, issued: bool, row: Row)
    requires |mid| == |orig| && id < |orig| && mid[id] == orig[id]
    requires orig[id].status != Issued && row.status == Issued
    requires midCount == |Moved(orig, mid, Issued)|
    requires after == (if issued then mid[id := row] else mid)
    requires afterCount == (if issued then midCount + 1 else midCount)
    ensures afterCount == |Moved(orig, after, Issued)|
  {
    if issued {
      MovedAfterIssue(orig, mid, id, row);
    }
  }

  /** The last approval step changes at most the record it approves, and counts it when it does. */
  lemma ApproveLastStep(db: Db, targets: seq<nat>, read: Read, today: Day) returns (issued: bool)
    requires CanRead(read, db) && targets != []
    requires forall k :: 0 <= k < |targets| ==> targets[k] < |db.rows|
    ensures var acc := ApproveAll(db, targets[..|targets| - 1], read, today);
      var r := ApproveAll(db, targets, read, today);
      var id := targets[|targets| - 1];
      && r.db.rows == (if issued then acc.db.rows[id := Issue(acc.db.rows[id], today)] else acc.db.rows)
      && r.count == (if issued then acc.count + 1 else acc.count)
  {
    var acc := ApproveAll(db, targets[..|targets| - 1], read, today);
    var id := targets[|targets| - 1];
    issued := Seen(read, acc.db, acc.db.rows[id].book).isAvailable;
  }

  /** Issuing one more record, not yet moved, adds exactly that record to the moved set. */
  lemma MovedAfterIssue(orig: seq<Row>, mid: seq<Row>, id: nat, row: Row)
    requires |mid| == |orig| && id < |orig| && mid[id] == orig[id]
    requires orig[id].status != Issued && row.status == Issued
    ensures id !in Moved(orig, mid, Issued)
    ensures Moved(orig, mid[id := row], Issued) == Moved(orig, mid, Issued) + {id}
  {
    var after := Moved(orig, mid[id := row], Issued);
    var before := Moved(orig, mid, Issued);
    forall i | i in after ensures i in before + {id} {
      if i != id { assert mid[id := row][i] == mid[i]; }
    }
    forall i | i in before ensures i in after {
      assert mid[id := row][i] == mid[i];
    }
  }

  /** Approving REQUESTED records keeps every member to one active request per Book. */
  lemma ApproveKeepsNoDuplicate(db: Db, targets: seq<nat>, read: Read, today: Day)
    requires CanRead(read, db) && NoDuplicateActive(db.rows)
    requires forall k :: 0 <= k < |targets| ==> targets[k] < |db.rows| && db.rows[targets[k]].status == Requested
    ensures NoDuplicateActive(ApproveAll(db, targets, read, today).db.rows)
  {
    var r := ApproveAll(db, targets, read, today).db.rows;
    forall i | 0 <= i < |r| ensures Active(r[i].status) ==> Active(db.rows[i].status) {
      if i !in targets {
        ApproveLeavesOthers(db, targets, read, today, i);
      }
    }
    NoNewActiveKeepsNoDuplicate(db.rows, r);
  }

  /** Corrected approval (availability re-read for every record) never leaves two records for
      one Book ISSUED. */
  lemma {:induction false} FreshApproveKeepsOneIssued(db: Db, targets: seq<nat>, today: Day)
    requires Consistent(db) && AtMostOneIssued(db.rows)
    requires forall k :: 0 <= k < |targets| ==> targets[k] < |db.rows|
    ensures AtMostOneIssued(ApproveAll(db, targets, Current, today).db.rows)
    decreases |targets|
  {
    if targets != [] {
      var prefix := targets[..|targets| - 1];
      FreshApproveKeepsOneIssued(db, prefix, today);
      ApproveKeepsConsistent(db, prefix, Current, today);
      var acc := ApproveAll(db, prefix, Current, today);
      var id := targets[|targets| - 1];
      var row := acc.db.rows[id];
      if acc.db.books[row.book].isAvailable {
        var rows := acc.db.rows[id := Issue(row, today)];
        assert !HasIssued(acc.db.rows, row.book);
        forall i | 0 <= i < |rows| && i != id && rows[i].book == row.book
          ensures rows[i].status != Issued
        {
          assert rows[i] == acc.db.rows[i];
        }
      }
    }
  }

  /** As written, two REQUESTED records for one available Book approved in the same batch are
      both ISSUED: each sees the Book as it was loaded before the batch. */
  lemma SnapshotApproveIssuesTwice()
    ensures var db := Db(map[0 := NewBook("T", [], None, None)],
                         [Row(1, 0, None, 0, Some(14), None, Requested), Row(2, 0, None, 0, Some(14), None, Requested)]);
      var r := ApproveAll(db, [0, 1], Preloaded(db.books), 0);
      Consistent(db) && AtMostOneIssued(db.rows) &&
      r.count == 2 && r.db.rows[0].status == Issued && r.db.rows[1].status == Issued &&
      !AtMostOneIssued(r.db.rows)
  {
    var db := Db(map[0 := NewBook("T", [], None, None)],
                 [Row(1, 0, None, 0, Some(14), None, Requested), Row(2, 0, None, 0, Some(14), None, Requested)]);
    assert [0, 1][..1] == [0] && [0][..0] == [];
    var r := ApproveAll(db, [0, 1], Preloaded(db.books), 0);
    assert r.db.rows[0].book == r.db.rows[1].book;
  }

  /** With availability re-read, the same batch issues the first record only and warns about the
      second. */
  lemma FreshApproveIssuesOnce()
    ensures var db := Db(map[0 := NewBook("T", [], None, None)],
                         [Row(1, 0, None, 0, Some(14), None, Requested), Row(2, 0, None, 0, Some(14), None, Requested)]);
      var r := ApproveAll(db, [0, 1], Current, 0);
      r.count == 1 && r.db.rows[0].status == Issued && r.db.rows[1].status == Requested &&
      r.messages == [NoLongerAvailable("T", 2)] && !r.db.books[0].isAvailable
  {
    assert [0, 1][..1] == [0] && [0][..0] == [];
  }

  /** The bulk reject moves exactly the targets to REJECTED, and, because targets are REQUESTED,
      keeps the availability rule although save() is bypassed. */
  lemma {:induction false} RejectKeepsConsistent(db: Db, targets: seq<nat>)
    requires Consistent(db)
    requires forall k :: 0 <= k < |targets| ==> targets[k] < |db.rows| && db.rows[targets[k]].status == Requested
    ensures Consistent(Db(db.books, RejectRows(db.rows, targets)))
  {
    var rows := RejectRows(db.rows, targets);
    forall b | b in db.books
      ensures HasIssued(rows, b) <==> HasIssued(db.rows, b)
    {
      if HasIssued(rows, b) {
        var i :| 0 <= i < |rows| && rows[i].book == b && rows[i].status == Issued;
        assert rows[i] == db.rows[i];
      }
      if HasIssued(db.rows, b) {
        var i :| 0 <= i < |db.rows| && db.rows[i].book == b && db.rows[i].status == Issued;
        assert i !in targets;
        assert rows[i] == db.rows[i];
      }
    }
  }

  /** The bulk reject moves exactly the targets to REJECTED. */
  lemma RejectMoves(rows: seq<Row>, targets: seq<nat>)
    requires forall k :: 0 <= k < |targets| ==> targets[k] < |rows| && rows[targets[k]].status == Requested
    ensures Moved(rows, RejectRows(rows, targets), Rejected) == set k | 0 <= k < |targets| :: targets[k]
  {
    var moved := Moved(rows, RejectRows(rows, targets), Rejected);
    var chosen := set k | 0 <= k < |targets| :: targets[k];
    forall i | i in chosen ensures i in moved {
      var k :| 0 <= k < |targets| && targets[k] == i;
    }
  }

  /** The bulk reject reports as many rows as it moved to REJECTED. */
  lemma {:induction false} RejectCount(rows: seq<Row>, targets: seq<nat>)
    requires Distinct(targets)
    requires forall k :: 0 <= k < |targets| ==> targets[k] < |rows| && rows[targets[k]].status == Requested
    ensures |Moved(rows, RejectRows(rows, targets), Rejected)| == |targets|
  {
    RejectMoves(rows, targets);
    DistinctCard(targets);
  }

  lemma {:induction false} DistinctCard(s: seq<nat>)
    requires Distinct(s)
    ensures |set k | 0 <= k < |s| :: s[k]| == |s|
  {
    if s != [] {
      var n := |s| - 1;
      assert Distinct(s[..n]);
      DistinctCard(s[..n]);
      var all := set k | 0 <= k < |s| :: s[k];
      var init := set k | 0 <= k < n :: s[..n][k];
      assert all == init + {s[n]} by {
        forall x | x in all ensures x in init + {s[n]} {
          var k :| 0 <= k < |s| && s[k] == x;
          if k < n { assert s[..n][k] == x; }
        }
      }
      assert s[n] !in init;
    }
  }

  /** The return loop keeps the availability rule. */
  lemma {:induction false} ReturnKeepsConsistent(db: Db, targets: seq<nat>, today: Day)
    requires Consistent(db)
    requires forall k :: 0 <= k < |targets| ==> targets[k] < |db.rows|
    ensures Consistent(ReturnAll(db, targets, today))
    decreases |targets|
  {
    if targets != [] {
      var prefix := targets[..|targets| - 1];
      ReturnKeepsConsistent(db, prefix, today);
      var acc := ReturnAll(db, prefix, today);
      var id := targets[|targets| - 1];
      SaveKeepsConsistent(acc, id, Return(acc.rows[id], today));
    }
  }

  /** Rejection activates no record, so it keeps every member to one active request per Book. */
  lemma RejectKeepsNoDuplicate(rows: seq<Row>, targets: seq<nat>)
    requires NoDuplicateActive(rows)
    ensures NoNewActive(rows, RejectRows(rows, targets))
    ensures NoDuplicateActive(RejectRows(rows, targets))
  {
    NoNewActiveKeepsNoDuplicate(rows, RejectRows(rows, targets));
  }

  /** The return loop activates no record. */
  lemma ReturnActivatesNothing(db: Db, targets: seq<nat>, today: Day)
    requires WellFormed(db)
    requires forall k :: 0 <= k < |targets| ==> targets[k] < |db.rows|
    ensures NoNewActive(db.rows, ReturnAll(db, targets, today).rows)
  {
    var r := ReturnAll(db, targets, today);
    forall i | 0 <= i < |r.rows|
      ensures r.rows[i].member == db.rows[i].member && r.rows[i].book == db.rows[i].book
      ensures Active(r.rows[i].status) ==> Active(db.rows[i].status)
    {
      ReturnRowAt(db, targets, today, i);
    }
  }

  /** One step of the return loop, seen from record `i`: the last target's record is returned,
      and every other record is left as the earlier steps left it. */
  lemma ReturnStep(db: Db, targets: seq<nat>, today: Day, i: nat)
    requires WellFormed(db) && targets != [] && i < |db.rows|
    requires forall k :: 0 <= k < |targets| ==> targets[k] < |db.rows|
    ensures var acc := ReturnAll(db, targets[..|targets| - 1], today);
      ReturnAll(db, targets, today).rows[i] ==
        if i == targets[|targets| - 1] then Return(acc.rows[i], today) else acc.rows[i]
  {
    var acc := ReturnAll(db, targets[..|targets| - 1], today);
    var id := targets[|targets| - 1];
    SavedWritesRow(acc, Some(id), Return(acc.rows[id], today), acc.rows[id].status);
  }

  /** Where the return loop leaves record `i`: returned today if `i` is among the targets,
      as it was otherwise. Returning a record twice on one day is returning it once. */
  lemma {:induction false} ReturnRowAt(db: Db, targets: seq<nat>, today: Day, i: nat)
    requires WellFormed(db) && i < |db.rows|
    requires forall k :: 0 <= k < |targets| ==> targets[k] < |db.rows|
    ensures ReturnAll(db, targets, today).rows[i] == if i in targets then Return(db.rows[i], today) else db.rows[i]
    decreases |targets|
  {
    if targets != [] {
      var prefix := targets[..|targets| - 1];
      ReturnRowAt(db, prefix, today, i);
      ReturnStep(db, targets, today, i);
      assert i in targets <==> i in prefix || i == targets[|targets| - 1];
    }
  }

  /** Records that are not targets of the return loop are left as they were. */
  lemma ReturnLeavesOthers(db: Db, targets: seq<nat>, today: Day, i: nat)
    requires WellFormed(db)
    requires forall k :: 0 <= k < |targets| ==> targets[k] < |db.rows|
    requires i < |db.rows| && i !in targets
    ensures ReturnAll(db, targets, today).rows[i] == db.rows[i]
  {
    ReturnRowAt(db, targets, today, i);
  }

  /** Each selected ISSUED record ends RETURNED with today as its actual return date. */
  lemma ReturnRecordEffect(db: Db, targets: seq<nat>, today: Day, k: nat)
    requires WellFormed(db)
    requires forall j :: 0 <= j < |targets| ==> targets[j] < |db.rows|
    requires k < |targets|
    ensures ReturnAll(db, targets, today).rows[targets[k]] == Return(db.rows[targets[k]], today)
  {
    ReturnRowAt(db, targets, today, targets[k]);
  }

  /** The return loop moves exactly its ISSUED targets to RETURNED. */
  lemma ReturnMoves(db: Db, targets: seq<nat>, today: Day)
    requires WellFormed(db) && Distinct(targets)
    requires forall j :: 0 <= j < |targets| ==> targets[j] < |db.rows| && db.rows[targets[j]].status == Issued
    ensures Moved(db.rows, ReturnAll(db, targets, today).rows, Returned) == set k | 0 <= k < |targets| :: targets[k]
  {
    var r := ReturnAll(db, targets, today);
    var moved := Moved(db.rows, r.rows, Returned);
    var chosen := set k | 0 <= k < |targets| :: targets[k];
    forall i | i in moved ensures i in chosen {
      if i !in targets {
        ReturnLeavesOthers(db, targets, today, i);
      } else {
        var k :| 0 <= k < |targets| && targets[k] == i;
      }
    }
    forall i | i in chosen ensures i in moved {
      var k :| 0 <= k < |targets| && targets[k] == i;
      ReturnRecordEffect(db, targets, today, k);
    }
  }

  /** mark_as_returned_admin reports as many records as it moved to RETURNED. */
  lemma ReturnCount(db: Db, targets: seq<nat>, today: Day)
    requires WellFormed(db) && Distinct(targets)
    requires forall j :: 0 <= j < |targets| ==> targets[j] < |db.rows| && db.rows[targets[j]].status == Issued
    ensures |Moved(db.rows, ReturnAll(db, targets, today).rows, Returned)| == |targets|
  {
    ReturnMoves(db, targets, today);
    DistinctCard(targets);
  }

  /** A Book that one of the selected ISSUED records held is available afterwards exactly when
      none of its records is still ISSUED; every other Book keeps its flag. */
  lemma {:induction false} ReturnBookEffect(db: Db, targets: seq<nat>, today: Day, b: BookId)
    requires WellFormed(db) && Distinct(targets) && b in db.books
    requires forall j :: 0 <= j < |targets| ==> targets[j] < |db.rows| && db.rows[targets[j]].status == Issued
    ensures var r := ReturnAll(db, targets, today);
      r.books[b].isAvailable ==
        if TargetsBook(db.rows, targets, b) && !HasIssued(r.rows, b) then true else db.books[b].isAvailable
    decreases |targets|
  {
    if targets != [] {
      var n := |targets| - 1;
      var prefix := targets[..n];
      var id := targets[n];
      LastNotInPrefix(targets);
      ReturnBookEffect(db, prefix, today, b);
      TargetsBookSnoc(db.rows, targets, b);
      ReturnLeavesOthers(db, prefix, today, id);
      var acc := ReturnAll(db, prefix, today);
      HasIssuedAfterUpdate(acc.rows, id, Return(acc.rows[id], today), b);
    }
  }
}
