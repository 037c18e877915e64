/** The member-facing views that touch the lending lifecycle (myproject/myapp/views.py): the
    request a member submits from a book's page, the checks of the signup form, and the
    catalogue filters of the home and category pages. */
module Views {
  import opened Models

  // ---------------------------------------------------------------------------------------------
  // user_book_detail, POST

  /** How a book request ends. */
  datatype RequestOutcome =
    | BookNotFound        // get_object_or_404 on the Book
    | NoMemberProfile     // the logged-in user has no Member
    | NotAvailable        // the Book is not available
    | AlreadyRequested    // the member already has a REQUESTED or ISSUED record for it
    | Submitted(pk: nat)  // a REQUESTED record was created with this primary key

  /** The member has a REQUESTED or ISSUED record for Book `b`. */
  predicate HasActiveRequest(rows: seq<Row>, member: MemberId, b: BookId)
  {
    exists i :: 0 <= i < |rows| && rows[i].member == member && rows[i].book == b && Active(rows[i].status)
  }

  /** The record a successful request creates: REQUESTED, today, due LoanDays later, for the
      Book's edition when it has one. */
  function RequestRow(member: MemberId, b: BookId, book: Book, today: Day): (r: Row)
    ensures r.member == member && r.book == b && r.edition == book.edition
    ensures r.status == Requested && Active(r.status) && r.status != Issued
    ensures r.issueDate == today && r.returnDate == Some(today + LoanDays) && r.actualReturnDate.None?
  {
    Row(member, b, book.edition, today, Some(today + LoanDays), None, Requested)
  }

  /** The POST branch of user_book_detail. `member` is the Member of the logged-in user, if the
      user has one; `today` stands for timezone.now(). */
  method RequestBook(store: Store, member: Option<MemberId>, b: BookId, today: Day)
    returns (outcome: RequestOutcome)
    modifies store
    ensures outcome == BookNotFound <==> b !in old(store.books)
    ensures outcome == NoMemberProfile <==> b in old(store.books) && member.None?
    ensures outcome == NotAvailable <==>
      b in old(store.books) && member.Some? && !old(store.books)[b].isAvailable
    ensures outcome == AlreadyRequested <==>
      b in old(store.books) && member.Some? && old(store.books)[b].isAvailable &&
      HasActiveRequest(old(store.rows), member.value, b)
    ensures outcome.Submitted? ==>
      outcome.pk == |old(store.rows)| &&
      store.rows == old(store.rows) + [RequestRow(member.value, b, old(store.books)[b], today)]
    ensures !outcome.Submitted? ==> store.rows == old(store.rows)
    ensures store.books == old(store.books)
    ensures old(Consistent(store.State())) ==> Consistent(store.State())
    ensures old(NoDuplicateActive(store.rows)) ==> NoDuplicateActive(store.rows)
  {
    if b !in store.books {
      return BookNotFound;
    }
    if member.None? {
      return NoMemberProfile;
    }
    var book := store.books[b];
    var alreadyRequestedOrIssued := HasActiveRequest(store.rows, member.value, b);
    if !book.isAvailable {
      return NotAvailable;
    }
    if alreadyRequestedOrIssued {
      return AlreadyRequested;
    }
    var req := new IssuedBook(member.value, b, book.edition, today, Some(today + LoanDays), book.isAvailable, Requested);
    req.Save(store);
    outcome := Submitted(req.pk.value);
    assert req.AsRow() == RequestRow(member.value, b, book, today);
    if old(Consistent(store.State())) {
      CreateKeepsConsistent(old(store.State()), req.AsRow());
    }
    if old(NoDuplicateActive(store.rows)) {
      AppendKeepsNoDuplicate(old(store.rows), req.AsRow());
    }
  }

  /** Appending a record for a member and Book with no active record keeps every member to one
      active request per Book. */
  lemma AppendKeepsNoDuplicate(rows: seq<Row>, row: Row)
    requires NoDuplicateActive(rows) && !HasActiveRequest(rows, row.member, row.book)
    ensures NoDuplicateActive(rows + [row])
  {
    var r := rows + [row];
    forall i, j | 0 <= i < |r| && 0 <= j < |r| && i != j && r[i].member == r[j].member &&
                  r[i].book == r[j].book && Active(r[i].status)
      ensures !Active(r[j].status)
    {
      if j == |rows| {
        assert r[i] == rows[i];
      } else if i == |rows| {
        assert r[j] == rows[j];
      } else {
        assert r[i] == rows[i] && r[j] == rows[j];
      }
    }
  }

  /** A request that submits a record never submits a second one for the same Book: once the
      first succeeds, the same request is refused. */
  lemma {:induction false} RequestTwiceRefused(rows: seq<Row>, member: MemberId, b: BookId, book: Book, today: Day)
    ensures HasActiveRequest(rows + [RequestRow(member, b, book, today)], member, b)
  {
    var r := rows + [RequestRow(member, b, book, today)];
    assert r[|rows|] == RequestRow(member, b, book, today);
  }

  // ---------------------------------------------------------------------------------------------
  // Python's str.strip() and ASCII lower-casing

  /** The characters str.isspace() accepts. */
  predicate IsSpace(c: char)
  {
    ('\t' <= c <= '\r') || ('\U{1c}' <= c <= ' ') || c == '\U{85}' || c == '\U{a0}' ||
    c == '\U{1680}' || ('\U{2000}' <= c <= '\U{200a}') || c == '\U{2028}' || c == '\U{2029}' ||
    c == '\U{202f}' || c == '\U{205f}' || c == '\U{3000}'
  }

  /** `s` without its leading whitespace. */
  function StripStart(s: string): (r: string)
    ensures |r| <= |s| && r == s[|s| - |r|..]
    ensures forall i :: 0 <= i < |s| - |r| ==> IsSpace(s[i])
    ensures r == [] || !IsSpace(r[0])
    decreases |s|
  {
    if s != [] && IsSpace(s[0]) then StripStart(s[1..]) else s
  }

  /** `s` without its trailing whitespace. */
  function StripEnd(s: string): (r: string)
    ensures |r| <= |s| && r == s[..|r|]
    ensures forall i :: |r| <= i < |s| ==> IsSpace(s[i])
    ensures r == [] || !IsSpace(r[|r| - 1])
    decreases |s|
  {
    if s != [] && IsSpace(s[|s| - 1]) then StripEnd(s[..|s| - 1]) else s
  }

  /** str.strip() with no argument. */
  function Strip(s: string): (r: string)
    ensures |r| <= |s|
    ensures r == [] || (!IsSpace(r[0]) && !IsSpace(r[|r| - 1]))
  {
    var u := StripStart(s);
    var r := StripEnd(u);
    assert r == [] || r[0] == u[0];
    r
  }

  /** strip() removes whitespace only, and only from the two ends: what it keeps is a
      contiguous part of the input with whitespace on both sides of it. */
  lemma StripKeepsMiddle(s: string) returns (i: nat)
    ensures i + |Strip(s)| <= |s| && Strip(s) == s[i..i + |Strip(s)|]
    ensures forall k :: 0 <= k < i ==> IsSpace(s[k])
    ensures forall k :: i + |Strip(s)| <= k < |s| ==> IsSpace(s[k])
  {
    var u := StripStart(s);
    var r := StripEnd(u);
    i := |s| - |u|;
    assert Strip(s) == r;
    assert u == s[i..];
    forall k | i + |r| <= k < |s| ensures IsSpace(s[k]) {
      assert |r| <= k - i < |u|;
      assert IsSpace(u[k - i]);
    }
  }

  /** A string with no whitespace at either end is its own strip. */
  lemma {:induction false} StripTrimmed(s: string)
    requires s == [] || (!IsSpace(s[0]) && !IsSpace(s[|s| - 1]))
    ensures Strip(s) == s
  {
    assert StripStart(s) == s;
    assert StripEnd(s) == s;
  }

  /** Stripping twice is stripping once. */
  lemma StripIdempotent(s: string)
    ensures Strip(Strip(s)) == Strip(s)
  {
    var t := Strip(s);
    if t != [] {
      var u := StripStart(s);
      assert t == u[..|t|];
      assert t[0] == u[0];
    }
    StripTrimmed(t);
  }

  /** The lower-case form of an ASCII capital letter; any other character is kept. */
  function LowerChar(c: char): (r: char)
    ensures !('A' <= r <= 'Z')
    ensures !('A' <= c <= 'Z') ==> r == c
    ensures 'A' <= c <= 'Z' ==> r as int - 'a' as int == c as int - 'A' as int
  {
    if 'A' <= c <= 'Z' then (c as int + 32) as char else c
  }

  /** str.lower(), on ASCII letters. */
  function Lower(s: string): (r: string)
    ensures |r| == |s|
    ensures forall i :: 0 <= i < |s| ==> r[i] == LowerChar(s[i])
  {
    seq(|s|, i requires 0 <= i < |s| => LowerChar(s[i]))
  }

  /** Lower-casing twice is lower-casing once. */
  lemma LowerIdempotent(s: string)
    ensures Lower(Lower(s)) == Lower(s)
  {
  }

  /** Lower-casing neither adds nor removes whitespace, so it commutes with strip(). */
  lemma {:induction false} StripLower(s: string)
    ensures Strip(Lower(s)) == Lower(Strip(s))
  {
    StripStartLower(s);
    StripEndLower(StripStart(s));
  }

  /** Lower-casing a character keeps it whitespace or not. */
  lemma LowerCharSpace(c: char)
    ensures IsSpace(LowerChar(c)) <==> IsSpace(c)
  {
  }

  lemma {:induction false} StripStartLower(s: string)
    ensures StripStart(Lower(s)) == Lower(StripStart(s))
    decreases |s|
  {
    if s != [] {
      LowerCharSpace(s[0]);
      assert Lower(s)[0] == LowerChar(s[0]);
      if IsSpace(s[0]) {
        assert Lower(s)[1..] == Lower(s[1..]);
        StripStartLower(s[1..]);
      }
    }
  }

  lemma {:induction false} StripEndLower(s: string)
    ensures StripEnd(Lower(s)) == Lower(StripEnd(s))
    decreases |s|
  {
    if s != [] {
      LowerCharSpace(s[|s| - 1]);
      assert Lower(s)[|s| - 1] == LowerChar(s[|s| - 1]);
      if IsSpace(s[|s| - 1]) {
        assert Lower(s)[..|s| - 1] == Lower(s[..|s| - 1]);
        StripEndLower(s[..|s| - 1]);
      }
    }
  }

  /** The form in which signup checks and stores an email: stripped, then lower-cased. */
  function NormaliseEmail(raw: string): (r: string)
    ensures |r| <= |raw|
    ensures r == Strip(Lower(raw))
    ensures forall k :: 0 <= k < |r| ==> !('A' <= r[k] <= 'Z')
  {
    StripLower(raw);
    Lower(Strip(raw))
  }

  /** A normalised email is its own normal form. */
  lemma NormaliseEmailIdempotent(raw: string)
    ensures NormaliseEmail(NormaliseEmail(raw)) == NormaliseEmail(raw)
  {
    var t := Strip(raw);
    StripLower(t);
    StripIdempotent(raw);
    LowerIdempotent(t);
  }

  // ---------------------------------------------------------------------------------------------
  // signup_view, POST

  /** request.POST: submitted field names and their values. */
  type Post = map<string, string>

  /** request.POST.get(key, default). */
  function Get(post: Post, key: string, default: string): string
  {
    if key in post then post[key] else default
  }

  /** A django.contrib.auth User as signup creates it, with the Member type of its profile. */
  datatype Account = Account(username: string, email: string, firstName: string, lastName: string,
                             password: string, memberType: string)

  /** The first choice of MEMBER_TYPE_CHOICES. */
  const DefaultMemberType: string := "STUDENT"

  /** The cleaned fields of the form. A password that was not submitted is None. */
  datatype SignupForm = SignupForm(username: string, email: string, firstName: string, lastName: string,
                                   password: Option<string>, password2: Option<string>, memberType: string)

  function ReadForm(post: Post): (f: SignupForm)
    ensures f.email == NormaliseEmail(Get(post, "email", ""))
    ensures f.memberType == (if "member_type" in post then post["member_type"] else DefaultMemberType)
  {
    SignupForm(Strip(Get(post, "username", "")), NormaliseEmail(Get(post, "email", "")),
               Strip(Get(post, "first_name", "")), Strip(Get(post, "last_name", "")),
               if "password" in post then Some(post["password"]) else None,
               if "password2" in post then Some(post["password2"]) else None,
               Get(post, "member_type", DefaultMemberType))
  }

  /** Python truthiness of an optional string: present and not empty. */
  predicate Filled(s: Option<string>)
  {
    s.Some? && s.value != ""
  }

  /** The `all([...])` check: every required field is non-empty. */
  predicate AllFilled(f: SignupForm)
  {
    f.username != "" && f.email != "" && Filled(f.password) && Filled(f.password2) &&
    f.firstName != "" && f.lastName != ""
  }

  predicate UsernameTaken(users: seq<Account>, username: string)
  {
    exists i :: 0 <= i < |users| && users[i].username == username
  }

  predicate EmailTaken(users: seq<Account>, email: string)
  {
    exists i :: 0 <= i < |users| && users[i].email == email
  }

  datatype SignupResult =
    | MissingFields
    | PasswordMismatch
    | DuplicateUsername
    | DuplicateEmail
    | Created(account: Account)

  /** The validation chain of signup_view on the cleaned form: the first check that fails is
      the only error reported; when none fails, the account it creates. */
  function Validate(f: SignupForm, users: seq<Account>): (r: SignupResult)
    ensures r == MissingFields <==> !AllFilled(f)
    ensures r == PasswordMismatch <==> AllFilled(f) && f.password != f.password2
    ensures r == DuplicateUsername <==>
      AllFilled(f) && f.password == f.password2 && UsernameTaken(users, f.username)
    ensures r == DuplicateEmail <==>
      AllFilled(f) && f.password == f.password2 && !UsernameTaken(users, f.username) &&
      EmailTaken(users, f.email)
    ensures r.Created? ==>
      && AllFilled(f) && f.password == f.password2
      && r.account == Account(f.username, f.email, f.firstName, f.lastName, f.password.value, f.memberType)
      && r.account.username != "" && r.account.email != "" && r.account.password != ""
      && !UsernameTaken(users, r.account.username) && !EmailTaken(users, r.account.email)
  {
    if !AllFilled(f) then MissingFields
    else if f.password != f.password2 then PasswordMismatch
    else if UsernameTaken(users, f.username) then DuplicateUsername
    else if EmailTaken(users, f.email) then DuplicateEmail
    else Created(Account(f.username, f.email, f.firstName, f.lastName, f.password.value, f.memberType))
  }

  /** signup_view on a submitted form. */
  function Signup(post: Post, users: seq<Account>): (r: SignupResult)
    ensures r.Created? ==>
      "password" in post && "password2" in post && post["password"] == post["password2"] &&
      r.account == Account(Strip(Get(post, "username", "")), NormaliseEmail(Get(post, "email", "")),
                           Strip(Get(post, "first_name", "")), Strip(Get(post, "last_name", "")),
                           post["password"], Get(post, "member_type", DefaultMemberType))
    ensures r.Created? ==>
      r.account.username != "" && r.account.email != "" && r.account.password != "" &&
      !UsernameTaken(users, r.account.username) && !EmailTaken(users, r.account.email)
  {
    Validate(ReadForm(post), users)
  }

  /** No two accounts share a username or an email. */
  predicate UniqueAccounts(users: seq<Account>)
  {
    forall i, j :: 0 <= i < j < |users| ==> users[i].username != users[j].username && users[i].email != users[j].email
  }

  /** Signing up keeps usernames and emails unique, and every account it adds has a normalised
      email. */
  lemma SignupKeepsAccountsUnique(post: Post, users: seq<Account>)
    requires UniqueAccounts(users)
    ensures var r := Signup(post, users);
      r.Created? ==> UniqueAccounts(users + [r.account]) && NormaliseEmail(r.account.email) == r.account.email
  {
    var r := Signup(post, users);
    if r.Created? {
      var u := users + [r.account];
      forall i, j | 0 <= i < j < |u| ensures u[i].username != u[j].username && u[i].email != u[j].email {
        if j == |users| {
          assert u[i] == users[i];
        }
      }
      NormaliseEmailIdempotent(Get(post, "email", ""));
    }
  }

  // ---------------------------------------------------------------------------------------------
  // Catalogue filters

  /** `t` occurs in `s`. */
  predicate Contains(s: string, t: string)
  {
    exists i :: 0 <= i <= |s| - |t| && t <= s[i..]
  }

  /** The icontains lookup. */
  predicate ContainsCI(s: string, t: string)
  {
    Contains(Lower(s), Lower(t))
  }

  /** `t` occurs in `s` at position `i`, comparing characters after lower-casing them. */
  predicate OccursCI(s: string, t: string, i: int)
  {
    0 <= i <= |s| - |t| && forall k :: 0 <= k < |t| ==> LowerChar(s[i + k]) == LowerChar(t[k])
  }

  /** icontains compares character by character, each lower-cased. */
  lemma ContainsCIMeaning(s: string, t: string)
    ensures ContainsCI(s, t) <==> exists i :: OccursCI(s, t, i)
  {
    if ContainsCI(s, t) {
      var i :| 0 <= i <= |Lower(s)| - |Lower(t)| && Lower(t) <= Lower(s)[i..];
      assert forall k :: 0 <= k < |t| ==> Lower(t)[k] == Lower(s)[i..][k];
      assert OccursCI(s, t, i);
    }
    if exists i :: OccursCI(s, t, i) {
      var i :| OccursCI(s, t, i);
      assert Lower(t) <= Lower(s)[i..];
    }
  }

  /** The title, an author's first or last name, or the category name contains `q`. */
  predicate MatchesQuery(book: Book, q: string)
  {
    ContainsCI(book.title, q) ||
    (exists k :: 0 <= k < |book.authors| &&
      (ContainsCI(book.authors[k].firstName, q) || ContainsCI(book.authors[k].lastName, q))) ||
    (book.category.Some? && ContainsCI(book.category.value, q))
  }

  /** The search of the home page: the available Books that match, each once. */
  function Search(books: map<BookId, Book>, q: string): (r: set<BookId>)
    ensures forall b :: b in r <==> b in books && books[b].isAvailable && MatchesQuery(books[b], q)
  {
    set b | b in books && books[b].isAvailable && MatchesQuery(books[b], q)
  }

  /** A string contains itself. */
  lemma ContainsSelf(s: string)
    ensures Contains(s, s)
  {
    assert s <= s[0..];
  }

  /** Containment is transitive. */
  lemma ContainsTrans(s: string, t: string, u: string)
    requires Contains(s, t) && Contains(t, u)
    ensures Contains(s, u)
  {
    var i :| 0 <= i <= |s| - |t| && t <= s[i..];
    var j :| 0 <= j <= |t| - |u| && u <= t[j..];
    assert forall k :: 0 <= k < |u| ==> s[i + j + k] == t[j + k] == u[k];
    assert u <= s[i + j..];
  }

  /** Lower-casing keeps an occurrence. */
  lemma ContainsLower(s: string, t: string)
    requires Contains(s, t)
    ensures Contains(Lower(s), Lower(t))
  {
    var i :| 0 <= i <= |s| - |t| && t <= s[i..];
    assert Lower(t) <= Lower(s)[i..];
  }

  /** A Book matching a longer query matches every part of it. */
  lemma MatchesNarrower(book: Book, q: string, q': string)
    requires Contains(q', q) && MatchesQuery(book, q')
    ensures MatchesQuery(book, q)
  {
    ContainsLower(q', q);
    if ContainsCI(book.title, q') {
      ContainsTrans(Lower(book.title), Lower(q'), Lower(q));
    } else if book.category.Some? && ContainsCI(book.category.value, q') {
      ContainsTrans(Lower(book.category.value), Lower(q'), Lower(q));
    } else {
      var k :| 0 <= k < |book.authors| &&
        (ContainsCI(book.authors[k].firstName, q') || ContainsCI(book.authors[k].lastName, q'));
      if ContainsCI(book.authors[k].firstName, q') {
        ContainsTrans(Lower(book.authors[k].firstName), Lower(q'), Lower(q));
      } else {
        ContainsTrans(Lower(book.authors[k].lastName), Lower(q'), Lower(q));
      }
    }
  }

  /** Extending the query can only narrow the results. */
  lemma SearchNarrows(books: map<BookId, Book>, q: string, q': string)
    requires Contains(q', q)
    ensures Search(books, q') <= Search(books, q)
  {
    forall b | b in Search(books, q') ensures b in Search(books, q) {
      MatchesNarrower(books[b], q, q');
    }
  }

  /** The search ignores the case of the query. */
  lemma SearchIgnoresCase(books: map<BookId, Book>, q: string)
    ensures Search(books, Lower(q)) == Search(books, q)
  {
    LowerIdempotent(q);
    forall b | b in books ensures MatchesQuery(books[b], Lower(q)) == MatchesQuery(books[b], q) {
      assert forall s :: ContainsCI(s, Lower(q)) == ContainsCI(s, q);
    }
  }

  /** The names of the categories listed beside the search results: those whose name contains
      the query, and those of the matching Books. */
  function SearchCategories(categories: set<string>, books: map<BookId, Book>, q: string): (r: set<string>)
    ensures forall c :: c in r <==>
      c in categories && (ContainsCI(c, q) || exists b :: b in Search(books, q) && books[b].category == Some(c))
    ensures forall b :: b in Search(books, q) && books[b].category.Some? && books[b].category.value in categories
                        ==> books[b].category.value in r
  {
    set c | c in categories &&
      (ContainsCI(c, q) || exists b :: b in Search(books, q) && books[b].category == Some(c))
  }

  /** Extending the query can only narrow the categories listed. */
  lemma SearchCategoriesNarrows(categories: set<string>, books: map<BookId, Book>, q: string, q': string)
    requires Contains(q', q)
    ensures SearchCategories(categories, books, q') <= SearchCategories(categories, books, q)
  {
    SearchNarrows(books, q, q');
    ContainsLower(q', q);
    forall c | c in SearchCategories(categories, books, q') ensures c in SearchCategories(categories, books, q) {
      if ContainsCI(c, q') {
        ContainsTrans(Lower(c), Lower(q'), Lower(q));
      }
    }
  }

  /** What the home page lists: the latest Books, the search results, or nothing. */
  datatype Listing = Latest(ids: seq<BookId>) | Results(found: set<BookId>) | NoBooks

  datatype HomePage = HomePage(books: Listing, categories: set<string>, query: string)

  /** The number of Books an anonymous visitor sees. */
  const LatestCount: nat := 5

  /** A finite non-empty set of ids has a largest element. */
  lemma {:induction false} Largest(ids: set<nat>) returns (m: nat)
    requires ids != {}
    ensures m in ids && forall x :: x in ids ==> x <= m
    decreases |ids|
  {
    var x :| x in ids;
    var rest := ids - {x};
    if rest == {} {
      m := x;
      assert ids == {x};
    } else {
      var m' := Largest(rest);
      m := if x <= m' then m' else x;
      forall y | y in ids ensures y <= m {
        if y != x { assert y in rest; }
      }
    }
  }

  lemma HasLargest(ids: set<nat>)
    requires ids != {}
    ensures exists m :: m in ids && forall x :: x in ids ==> x <= m
  {
    var m := Largest(ids);
  }

  /** order_by('-id')[:k]: the `k` largest ids, largest first. */
  ghost function TopDesc(ids: set<nat>, k: nat): (r: seq<nat>)
    ensures |r| == if k < |ids| then k else |ids|
    ensures forall i, j :: 0 <= i < j < |r| ==> r[i] > r[j]
    ensures forall i :: 0 <= i < |r| ==> r[i] in ids
    decreases k
  {
    if k == 0 || ids == {} then []
    else
      HasLargest(ids);
      var m :| m in ids && forall x :: x in ids ==> x <= m;
      var rest := TopDesc(ids - {m}, k - 1);
      assert |ids - {m}| == |ids| - 1;
      assert forall i :: 0 <= i < |rest| ==> rest[i] < m;
      [m] + rest
  }

  /** An id that order_by('-id')[:k] leaves out is smaller than every id it keeps, and is left out
      only because `k` ids were kept. */
  lemma {:induction false} TopDescLeavesOutSmaller(ids: set<nat>, k: nat, x: nat)
    requires x in ids && x !in TopDesc(ids, k)
    ensures |TopDesc(ids, k)| == k && forall i :: 0 <= i < k ==> x < TopDesc(ids, k)[i]
    decreases k
  {
    if k != 0 && ids != {} {
      var r := TopDesc(ids, k);
      var m := r[0];
      var rest := TopDesc(ids - {m}, k - 1);
      assert r == [m] + rest;
      assert x != m && x in ids - {m};
      TopDescLeavesOutSmaller(ids - {m}, k - 1, x);
    }
  }

  /** The ids of the available Books. */
  function AvailableIds(books: map<BookId, Book>): (r: set<BookId>)
    ensures forall b :: b in r <==> b in books && books[b].isAvailable
  {
    set b | b in books && books[b].isAvailable
  }

  /** filter(is_available=True).order_by('-id')[:5]: at most five available Books, newest
      first, and any available Book left out is older than all of them. */
  ghost function LatestAvailable(books: map<BookId, Book>): (ids: seq<BookId>)
    ensures |ids| <= LatestCount
    ensures forall i :: 0 <= i < |ids| ==> ids[i] in books && books[ids[i]].isAvailable
    ensures forall i, j :: 0 <= i < j < |ids| ==> ids[i] > ids[j]
    ensures forall b :: b in books && books[b].isAvailable && b !in ids ==>
      |ids| == LatestCount && forall i :: 0 <= i < |ids| ==> b < ids[i]
  {
    var ids := TopDesc(AvailableIds(books), LatestCount);
    assert forall b :: b in books && books[b].isAvailable && b !in ids ==>
      |ids| == LatestCount && forall i :: 0 <= i < |ids| ==> b < ids[i] by {
      forall b | b in books && books[b].isAvailable && b !in ids
        ensures |ids| == LatestCount && forall i :: 0 <= i < |ids| ==> b < ids[i]
      {
        TopDescLeavesOutSmaller(AvailableIds(books), LatestCount, b);
      }
    }
    ids
  }

  /** home: `authenticated` is request.user.is_authenticated, `search` the raw `search`
      parameter (empty when absent). An anonymous visitor gets the latest Books and no
      categories; a signed-in user gets the search results, or nothing without a query. */
  ghost function Home(authenticated: bool, search: string, categories: set<string>,
                      books: map<BookId, Book>): (p: HomePage)
    ensures p.books.Latest? <==> !authenticated
    ensures p.books.Results? ==> p.query != "" && p.books.found <= AvailableIds(books)
    ensures p.categories <= categories
  {
    var q := Strip(search);
    if authenticated then
      if q != "" then HomePage(Results(Search(books, q)), SearchCategories(categories, books, q), q)
      else HomePage(NoBooks, categories, q)
    else HomePage(Latest(LatestAvailable(books)), {}, q)
  }

  /** user_books_by_category: None when no Category has id `category` (the 404), otherwise the
      available Books of that Category. A Book refers to its Category by name; the source filters
      by the Category's id, and the two agree because Category names are unique
      (myproject/myapp/models.py:8), so `categories` never maps two ids to one name. */
  function CategoryPage(categories: map<nat, string>, books: map<BookId, Book>, category: nat): (r: Option<set<BookId>>)
    ensures r.None? <==> category !in categories
    ensures r.Some? ==> forall b :: b in r.value <==>
      b in books && books[b].isAvailable && books[b].category == Some(categories[category])
  {
    if category !in categories then None
    else Some(set b | b in books && books[b].category == Some(categories[category]) && books[b].isAvailable)
  }

  /** Every Book on a category page is also found by searching for the category's name. */
  lemma CategoryPageFoundBySearch(categories: map<nat, string>, books: map<BookId, Book>, category: nat)
    requires category in categories
    ensures CategoryPage(categories, books, category).value <= Search(books, categories[category])
  {
    var name := categories[category];
    ContainsSelf(Lower(name));
  }
}
