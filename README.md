# Library lending lifecycle in Dafny

This project models the lending lifecycle of a Django library application.

A member asks for a Book and an `IssuedBook` record in status REQUESTED is created. A librarian
then approves the request (ISSUED) or rejects it (REJECTED). Later the librarian marks the loan
RETURNED. The status set also has OVERDUE.

The overridden `IssuedBook.save()` keeps the Book's `is_available` flag up to date:
- a record that enters ISSUED makes its Book unavailable;
- a record that leaves ISSUED for RETURNED or REJECTED makes its Book available again, but only
  when no other record for that Book is still ISSUED.

The central invariant is the availability rule (`Models.Consistent`): a Book is available exactly
when none of its records is ISSUED. The model proves where the code keeps this rule and
exhibits the inputs where it does not.

Files:
- `models.dfy` (module `Models`) holds the following:
  - the Book and IssuedBook rows, and the store of both tables (class `Store`);
  - the IssuedBook model object (class `IssuedBook`), which remembers its original status and
    has a `Save` method;
  - the pure specification of a save (`HookWrite`, `ApplyWrite`, `Saved`) that `Save` is proved
    against.
- `admin.dfy` (module `Admin`) holds the librarian's three batch actions:
  - Approve and mark-returned are loops. Each is proved against a left fold over the selected
    records (`ApproveAll`, `ReturnAll`).
  - Reject is a bulk update that bypasses `save()`.
- `views.dfy` (module `Views`) holds the member-facing views:
  - the book request;
  - the signup validation chain, including Python's `strip()` and `lower()`;
  - the search, home-page and category-page filters.

Conventions:
- Dates are day numbers, and "now" is a `today` parameter.
- A primary key of an IssuedBook row is its position in the store's sequence of rows.
- The order in which a queryset yields the selected rows is a parameter (`selection`).

## Model

| member | source | states |
|---|---|---|
| Models.NewBook | myproject/myapp/models.py:24-30 | a new Book is available (is_available defaults to true) and keeps the given title, authors, category and edition |
| Models.IssuedBook.constructor | myproject/myapp/models.py:82-88 | a new record has no primary key, defaults to REQUESTED, and remembers the status it was built with as its original status |
| Models.IssuedBook.Load | myproject/myapp/models.py:86-88 | a record loaded from row `id` holds that row and remembers the row's status |
| Models.IssuedBook.Save | myproject/myapp/models.py:90-100 | the store after save() is `Saved` of the old store: the row is written (updated or appended, getting a primary key), availability changes as the hook says, and the remembered status becomes the current status |
| Models.HookWrite | myproject/myapp/models.py:92-99 | the hook writes "unavailable" exactly when the status changed and is now ISSUED, and writes "available" exactly when an ISSUED record became RETURNED or REJECTED and no record for the Book is still ISSUED; otherwise it writes nothing |
| Models.Saved | myproject/myapp/models.py:90-100 | a save keeps the set of Books and changes no Book other than the record's own |
| Models.SavedWritesRow | myproject/myapp/models.py:90-91 | a save writes the record at its primary key, or appends it when it has none, and leaves every other record as it was |
| Models.ApplyWrite | myproject/myapp/models.py:94-99 | book.save(update_fields=['is_available']) changes only that flag of that one Book |
| Models.SaveHookEffect | myproject/myapp/models.py:90-99 | entering ISSUED makes the Book unavailable from any prior status; ISSUED to RETURNED or REJECTED makes it available exactly when no ISSUED record remains, else leaves it; ISSUED to REQUESTED leaves every Book as it was; a change to OVERDUE, no change, or a change not involving ISSUED leaves every Book as it was; other Books never change |
| Models.SaveIdempotent | myproject/myapp/models.py:90-100 | saving again without a status change leaves the store as the first save left it, whether that save updated an existing record or created one (which then has its new primary key) |
| Models.SaveKeepsConsistent | myproject/myapp/models.py:90-100 | saving an existing record that still refers to the same Book keeps the availability rule for every status change except ISSUED to REQUESTED or OVERDUE |
| Models.CreateKeepsConsistent | myproject/myapp/models.py:86-100 | creating a record that is not ISSUED keeps the availability rule |
| Models.AddBookKeepsConsistent | myproject/myapp/models.py:30 | adding a Book, available by default, keeps the availability rule |
| Models.OverdueReturnStrandsBook | myproject/myapp/models.py:92-99 | ISSUED then OVERDUE then RETURNED leaves the Book unavailable with no record ISSUED, which breaks the availability rule |
| Models.CreateIssuedSkipsHook | myproject/myapp/models.py:86-92 | creating a record already ISSUED leaves its Book available, because the record remembers ISSUED as its original status and the hook sees no change |
| Models.RepointIssuedBreaksRule | myproject/myapp/models.py:92-99 | saving an ISSUED record re-pointed to another Book, without a status change, leaves both Books' flags as they were and breaks the availability rule |
| Models.NoNewActiveKeepsNoDuplicate | myproject/myapp/views.py:146-158 | a change that activates no record keeps every member to at most one REQUESTED or ISSUED record per Book |
| Admin.Selected | myproject/myapp/admin.py:112 | queryset.filter(status=s) yields exactly the selected records in status s, each once when the selection has no repeats |
| Admin.ApproveOne | myproject/myapp/admin.py:113-122 | one approval step changes no record but the visited one and no Book but that record's; it issues the record (ISSUED, due date kept or set to today+14) and adds one to the count exactly when the Book as the step reads it is available, and then that Book ends unavailable if the record was not already ISSUED; otherwise it leaves the store as it was and appends one warning naming that Book's title and the requesting member; it never changes a member, Book, edition or issue date |
| Admin.Seen | myproject/myapp/admin.py:113 | the Book a record sees is the one loaded with the rows when availability is preloaded, and the store's current Book when it is re-read |
| Admin.Issue | myproject/myapp/admin.py:114-117 | an approved record is ISSUED with a due date: the one already set, or today+14 when none was; its other fields are unchanged |
| Admin.Report | myproject/myapp/admin.py:124-125 | an action reports its warnings in order, then one success line carrying the count only when the count is positive |
| Admin.ApproveAll | myproject/myapp/admin.py:111-122 | the approval loop changes no member, Book, edition or issue date, and the count plus the warnings equals the number of records it visits |
| Admin.ApproveRecord | myproject/myapp/admin.py:113-122 | loading a record, setting ISSUED and the due date if unset, and saving it is one step of `ApproveAll` |
| Admin.ApproveBatch | myproject/myapp/admin.py:111-122 | the loop's store, counter and warnings equal the fold `ApproveAll` over the records visited |
| Admin.ApproveSelectedRequests | myproject/myapp/admin.py:110-125 | for a selection without repeats, approval as written (availability from the Books loaded with the rows) yields the fold's store and its warnings, then a success line only when the count is positive; the count is the number of records moved to ISSUED; it keeps the availability rule and no-duplicate-request rule |
| Admin.ApproveSelectedRequestsFresh | myproject/myapp/admin.py:110-125 | approval with availability re-read per record: as above, and it also never leaves two records for one Book ISSUED |
| Admin.ApproveKeepsConsistent | myproject/myapp/admin.py:113-119 | approval keeps the availability rule, however it reads availability |
| Admin.ApproveLeavesOthers | myproject/myapp/admin.py:112 | approval leaves records outside its targets unchanged |
| Admin.SnapshotApproveRecord | myproject/myapp/admin.py:112-119 | as written, a selected record becomes ISSUED, with a due date of today+14 if none was set, exactly when its Book was available before the batch; otherwise it is unchanged |
| Admin.SnapshotApproveRowAt | myproject/myapp/admin.py:112-119 | as written, any record ends the batch issued if it was selected and its Book was available before the batch, and unchanged otherwise; selecting it twice issues it once |
| Admin.SnapshotApproveBook | myproject/myapp/admin.py:112-119 | as written, a Book is available after approval exactly when it was available before and no target asked for it |
| Admin.ApproveCountsIssued | myproject/myapp/admin.py:111-120 | the approval count equals the number of records moved to ISSUED |
| Admin.FreshApproveKeepsOneIssued | myproject/myapp/admin.py:113-119 | with availability re-read per record, approval never leaves two records for one Book ISSUED |
| Admin.SnapshotApproveIssuesTwice | myproject/myapp/admin.py:88-119 | as written, two REQUESTED records for one available Book in one batch are both ISSUED and counted |
| Admin.FreshApproveIssuesOnce | myproject/myapp/admin.py:112-122 | with availability re-read, the same batch issues the first record and warns about the second |
| Admin.ApproveKeepsNoDuplicate | myproject/myapp/admin.py:112-119 | approving REQUESTED records keeps every member to at most one active record per Book |
| Admin.RejectRows | myproject/myapp/admin.py:130 | the bulk update keeps the number of records |
| Admin.RejectSelectedRequests | myproject/myapp/admin.py:128-133 | for a selection without repeats, exactly the selected REQUESTED records become REJECTED, no Book changes, and the count equals the number of records moved to REJECTED and is reported only when positive; both invariants are kept |
| Admin.RejectKeepsConsistent | myproject/myapp/admin.py:130 | rejecting REQUESTED records keeps the availability rule |
| Admin.RejectLeavesOthers | myproject/myapp/admin.py:130 | the bulk update sets REJECTED on each target and changes no other field of it, and leaves every other record as it was |
| Admin.RejectMoves | myproject/myapp/admin.py:130 | the records the bulk update moves to REJECTED are exactly the targets |
| Admin.RejectCount | myproject/myapp/admin.py:130-133 | for targets without repeats, the count update() returns equals the number of records moved to REJECTED |
| Admin.RejectKeepsNoDuplicate | myproject/myapp/admin.py:130 | rejection activates no record, so the no-duplicate-request rule is kept |
| Admin.ReturnAll | myproject/myapp/admin.py:137-142 | the return loop changes no member, Book, edition or issue date |
| Admin.ReturnRecord | myproject/myapp/admin.py:139-141 | loading a record, setting RETURNED and today's return date, and saving it is one step of `ReturnAll` |
| Admin.ReturnBatch | myproject/myapp/admin.py:138-142 | the loop's store equals the fold `ReturnAll` over the records visited, and its counter is their number |
| Admin.Return | myproject/myapp/admin.py:139-140 | a returned record is RETURNED with today as its actual return date; its other fields are unchanged |
| Admin.MarkAsReturned | myproject/myapp/admin.py:136-144 | for a selection without repeats, the store is the fold over the selected ISSUED records, the count is their number, equals the number of records moved to RETURNED, and is reported only when positive; both invariants are kept |
| Admin.ReturnBatchFacts | myproject/myapp/admin.py:137-144 | the return loop over the selected ISSUED records moves exactly that many records to RETURNED and keeps both invariants |
| Admin.ReturnKeepsConsistent | myproject/myapp/admin.py:138-141 | marking records RETURNED keeps the availability rule |
| Admin.ReturnRowAt | myproject/myapp/admin.py:138-141 | any record ends the return loop returned today if it is a target, and unchanged otherwise; returning it twice on one day returns it once |
| Admin.ReturnLeavesOthers | myproject/myapp/admin.py:138 | records outside the targets are unchanged |
| Admin.ReturnMoves | myproject/myapp/admin.py:138-141 | the records the return loop moves to RETURNED are exactly its targets |
| Admin.ReturnCount | myproject/myapp/admin.py:142-144 | for targets without repeats, the reported count equals the number of records moved to RETURNED |
| Admin.ReturnRecordEffect | myproject/myapp/admin.py:138-141 | each target ends RETURNED with today as its actual return date, its other fields unchanged |
| Admin.ReturnBookEffect | myproject/myapp/admin.py:141 | a Book that a returned record refers to becomes available when none of its records is still ISSUED and otherwise keeps its availability; Books no target refers to keep theirs |
| Admin.ReturnActivatesNothing | myproject/myapp/admin.py:139 | the return loop activates no record |
| Views.RequestBook | myproject/myapp/views.py:131-176 | the outcomes in order: unknown Book, no Member profile, Book unavailable, active request exists; otherwise exactly one REQUESTED record (member, Book, its edition, today, due today+14) is appended; Books never change; both invariants are kept |
| Views.RequestRow | myproject/myapp/views.py:160-172 | the created record is REQUESTED (active, not ISSUED) for the member and the Book, with the Book's edition, issued today and due today+14, with no actual return date |
| Views.AppendKeepsNoDuplicate | myproject/myapp/views.py:146-158 | appending a record for a member and Book with no active record keeps the no-duplicate-request rule |
| Views.RequestTwiceRefused | myproject/myapp/views.py:146-174 | after a successful request the member has an active record for that Book, so the same request is then refused |
| Views.StripStart | myproject/myapp/views.py:52 | the result is a suffix of the input, everything removed is whitespace, and it does not start with whitespace |
| Views.StripEnd | myproject/myapp/views.py:52 | the result is a prefix of the input, everything removed is whitespace, and it does not end with whitespace |
| Views.Strip | myproject/myapp/views.py:52-55 | strip() gives a string no longer than its input that neither starts nor ends with whitespace |
| Views.StripKeepsMiddle | myproject/myapp/views.py:52-55 | strip() keeps one contiguous part of the input, and everything it removes before and after it is whitespace |
| Views.StripIdempotent | myproject/myapp/views.py:52-55 | stripping twice is stripping once |
| Views.Lower | myproject/myapp/views.py:53 | lower() keeps the length and lower-cases each character |
| Views.LowerChar | myproject/myapp/views.py:53 | a capital letter becomes its own small letter (the same offset from 'a' as from 'A'), any other character is kept, and the result is never a capital |
| Views.StripLower | myproject/myapp/views.py:53 | strip and lower commute |
| Views.NormaliseEmail | myproject/myapp/views.py:53 | the stored email is no longer than the submitted one, is the same whether stripped before or after lower-casing, and has no capital letter |
| Views.NormaliseEmailIdempotent | myproject/myapp/views.py:53 | a stripped, lower-cased email is its own normal form |
| Views.ReadForm | myproject/myapp/views.py:52-58 | the email is stripped and lower-cased; the member type is the submitted one, or STUDENT when absent |
| Views.Validate | myproject/myapp/views.py:61-80 | the checks fail in order (a required field empty, passwords differ, username taken, email taken) and only the first failure is reported; an account is created only when all pass, with non-empty username, email and password that no account has |
| Views.Signup | myproject/myapp/views.py:50-80 | an account is created only from a submitted, non-empty password equal to the confirmation; it stores the stripped username and the stripped, lower-cased email (both non-empty and unused), the stripped first and last names, that password, and the submitted member type or STUDENT |
| Views.SignupKeepsAccountsUnique | myproject/myapp/views.py:67-80 | a signup keeps usernames and emails unique across accounts, and stores a normalised email |
| Views.Search | myproject/myapp/views.py:22-27 | the results are exactly the available Books whose title, an author's first or last name, or category name contains the query ignoring case, each once |
| Views.ContainsCIMeaning | myproject/myapp/views.py:23-26 | icontains holds exactly when the query occurs at some position of the text, comparing each character after lower-casing it |
| Views.SearchNarrows | myproject/myapp/views.py:22-27 | a query that contains another finds a subset of its results |
| Views.SearchIgnoresCase | myproject/myapp/views.py:22-27 | lower-casing the query does not change the results |
| Views.SearchCategories | myproject/myapp/views.py:29-33 | a category is listed exactly when it exists and either its name contains the query ignoring case or a Book found by the search belongs to it; so every found Book's existing category is listed |
| Views.SearchCategoriesNarrows | myproject/myapp/views.py:29-33 | a query that contains another lists a subset of its categories |
| Views.TopDesc | myproject/myapp/views.py:39 | order_by('-id')[:k] yields min(k, n) ids, strictly decreasing, all from the set |
| Views.TopDescLeavesOutSmaller | myproject/myapp/views.py:39 | an id that order_by('-id')[:k] leaves out means the slice is full, and that id is smaller than every id in it |
| Views.LatestAvailable | myproject/myapp/views.py:39 | at most five available Books, newest first; an available Book left out is older than all five shown |
| Views.Home | myproject/myapp/views.py:12-40 | an anonymous visitor gets the latest list and a signed-in user never does; search results are available Books for a non-empty stripped query; listed categories exist |
| Views.CategoryPage | myproject/myapp/views.py:119-122 | an unknown category is a 404; otherwise the page lists exactly the available Books of that category, matched by its name, which is unique among Categories |
| Views.CategoryPageFoundBySearch | myproject/myapp/views.py:122 | every Book on a category page is also found by searching for the category's name |

## Left out

- `myproject/myapp/urls.py`: a route table with no logic.
- Rendering, redirects and flash messages: `messages.*` is modelled as returned values (`Admin.Message`, `Views.RequestOutcome`, `Views.SignupResult`), without the message text.
- Approval warnings name the member by `MemberId`, not by the user's username.
- Signup account creation: `create_user`, password hashing and the `except Exception` path are library calls. The password is stored as submitted, and creation is assumed to succeed.
- `login_view`, the GET branches of the views and `user_request_status` are outside the modelled core.
- Admin display helpers and model registration: presentation only.
- ORM mechanics: cascade and SET_NULL deletes, cover images and lazy loading. The only exception is the approval's choice between the Book loaded with the row and a fresh read (`Admin.Read`).
- Concurrency between simultaneous HTTP requests: each view and action is one sequential step.
- Time zones: `timezone.now()` is the `today` day number.
- Views.Lower: only the ASCII letters A-Z are lower-cased, not the full Unicode mapping of `str.lower()`. icontains is modelled the same way.
- Views.Home: its contract states the listing's shape. The exact listing is pinned down by `Views.LatestAvailable`, `Views.Search` and `Views.SearchCategories`.
- Views.TopDesc, Views.LatestAvailable, Views.Home: these are ghost functions. The newest-first listing is chosen by a "such that" expression, not by an executable sort.
- Admin.RejectRows: its own contract states only the record count; what the bulk update does to each record is proved in `Admin.RejectLeavesOthers`, `Admin.RejectMoves`, `Admin.RejectKeepsConsistent` and `Admin.RejectCount`.
- Models.SaveKeepsConsistent: it covers saves that keep the record's Book. Re-pointing a record to another Book is allowed by the code but breaks the rule, as `Models.RepointIssuedBreaksRule` shows; the hook only looks at the new Book.
- Admin: the batch actions require a selection without repeated primary keys, as a queryset of selected rows never has one.
- No code sets OVERDUE automatically, so no such sweep is modelled. Only the save hook's reaction to an OVERDUE value is modelled (`Models.OverdueReturnStrandsBook`).

## Findings

| source | as written | input that shows it | evidently intended | confidence | as-written member | corrected member |
|---|---|---|---|---|---|---|
| myproject/myapp/admin.py:112-119 | the approval loop checks `req.book.is_available` on the Book object loaded with each row (`list_select_related`, admin.py:88); a save through one row does not update the other rows' Book objects | one batch selecting two REQUESTED records for the same available Book: both become ISSUED and both are counted | a Book that one approval in the batch has issued is no longer available to the next record, which gets the "no longer available" warning | medium, not executed | Admin.SnapshotApproveIssuesTwice | Admin.FreshApproveKeepsOneIssued |
