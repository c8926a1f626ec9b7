/**
 * Books, users and reviews, and the review table's relational rules:
 * at most one review per (user, book) pair, both foreign keys deleting
 * in cascade, and `Book.reviews` as the reviews that point at a book.
 *
 * The table is specified as functions over a `Db` value; the class
 * `ReviewTable` at the end keeps the same state in fields that its
 * methods update in place, each method tied to the function that
 * specifies it.
 */
module Models {
  import opened Wrappers
  import Validators

  type UserId = nat
  type BookId = nat

  /** The framework's user record, as far as this model reads it. */
  datatype User = User(username: string)

  datatype Book = Book(title: string, author: string, description: string, file: Option<Validators.FileInfo>)

  datatype Review = Review(user: UserId, book: BookId, reviewText: string, rating: int)

  /** `Book.__str__`: a book prints as its title. */
  function BookToString(book: Book): string {
    book.title
  }

  /** The stored rows, keyed by auto-incremented ids that are never reused. */
  datatype Db = Db(
    users: map<UserId, User>,
    books: map<BookId, Book>,
    reviews: seq<Review>,
    nextUserId: nat,
    nextBookId: nat)

  /** Two reviews clash when they are by the same user about the same book. */
  predicate SamePair(a: Review, b: Review) {
    a.user == b.user && a.book == b.book
  }

  /** The `unique_together` constraint on (user, book). */
  predicate UniquePairs(rs: seq<Review>) {
    forall i, j :: 0 <= i < j < |rs| ==> !SamePair(rs[i], rs[j])
  }

  predicate HasReview(rs: seq<Review>, user: UserId, book: BookId) {
    exists r :: r in rs && r.user == user && r.book == book
  }

  /**
   * The state the database guarantees: unique pairs, every review's
   * foreign keys resolve, and every id is below its counter.
   */
  predicate Consistent(db: Db) {
    && UniquePairs(db.reviews)
    && (forall r :: r in db.reviews ==> r.user in db.users && r.book in db.books)
    && (forall u :: u in db.users ==> u < db.nextUserId)
    && (forall b :: b in db.books ==> b < db.nextBookId)
  }

  /** `Review.__str__`, reading the review's book and user through its foreign keys. */
  function ReviewToString(db: Db, review: Review): (s: string)
    requires review.book in db.books && review.user in db.users
    ensures |s| == 14 + |db.books[review.book].title| + |db.users[review.user].username|
    ensures "Review of " + db.books[review.book].title + " by " <= s
    ensures s[|s| - |db.users[review.user].username|..] == db.users[review.user].username
  {
    "Review of " + db.books[review.book].title + " by " + db.users[review.user].username
  }

  // ----- Selecting reviews ------------------------------------------------

  /** The filters the table applies to its reviews. */
  datatype Criterion = BookIs(book: BookId) | BookIsNot(book: BookId) | UserIsNot(user: UserId)

  predicate Matches(c: Criterion, r: Review) {
    match c
    case BookIs(b) => r.book == b
    case BookIsNot(b) => r.book != b
    case UserIsNot(u) => r.user != u
  }

  /** The reviews of `rs` that match `c`, in their stored order. */
  function Select(rs: seq<Review>, c: Criterion): (r: seq<Review>)
    ensures |r| <= |rs|
    ensures forall x :: x in r <==> x in rs && Matches(c, x)
  {
    if rs == [] then []
    else (if Matches(c, rs[0]) then [rs[0]] else []) + Select(rs[1..], c)
  }

  /** Each matching review is selected as many times as it occurs, every other one never. */
  lemma {:induction false} SelectCounts(rs: seq<Review>, c: Criterion)
    ensures forall x :: multiset(Select(rs, c))[x] == if Matches(c, x) then multiset(rs)[x] else 0
  {
    if rs != [] {
      SelectCounts(rs[1..], c);
      assert rs == [rs[0]] + rs[1..];
    }
  }

  lemma {:induction false} SelectAppend(rs: seq<Review>, x: Review, c: Criterion)
    ensures Select(rs + [x], c) == Select(rs, c) + (if Matches(c, x) then [x] else [])
  {
    if rs != [] {
      assert (rs + [x])[1..] == rs[1..] + [x];
      SelectAppend(rs[1..], x, c);
    }
  }

  /** Selecting from reviews with unique pairs keeps them unique. */
  lemma {:induction false} SelectKeepsUnique(rs: seq<Review>, c: Criterion)
    requires UniquePairs(rs)
    ensures UniquePairs(Select(rs, c))
  {
    if rs != [] {
      var tail := rs[1..];
      assert UniquePairs(tail) by {
        forall i, j | 0 <= i < j < |tail| ensures !SamePair(tail[i], tail[j]) {
          assert tail[i] == rs[i + 1] && tail[j] == rs[j + 1];
        }
      }
      SelectKeepsUnique(tail, c);
      var rest := Select(tail, c);
      if Matches(c, rs[0]) {
        forall j | 0 <= j < |rest| ensures !SamePair(rs[0], rest[j]) {
          assert rest[j] in tail;
          var k :| 0 <= k < |tail| && tail[k] == rest[j];
          assert rs[k + 1] == rest[j];
        }
        ConsKeepsUnique(rs[0], rest);
      }
    }
  }

  lemma ConsKeepsUnique(x: Review, rs: seq<Review>)
    requires UniquePairs(rs)
    requires forall j :: 0 <= j < |rs| ==> !SamePair(x, rs[j])
    ensures UniquePairs([x] + rs)
  {
  }

  /** Applying two filters in either order selects the same reviews in the same order. */
  lemma {:induction false} SelectCommutes(rs: seq<Review>, c1: Criterion, c2: Criterion)
    ensures Select(Select(rs, c1), c2) == Select(Select(rs, c2), c1)
  {
    if rs != [] {
      var x, t := rs[0], rs[1..];
      SelectCommutes(t, c1, c2);
      assert Select(rs, c1) == (if Matches(c1, x) then [x] else []) + Select(t, c1);
      assert Select(rs, c2) == (if Matches(c2, x) then [x] else []) + Select(t, c2);
      if Matches(c1, x) {
        SelectCons(x, Select(t, c1), c2);
      } else {
        assert Select(rs, c1) == Select(t, c1);
      }
      if Matches(c2, x) {
        SelectCons(x, Select(t, c2), c1);
      } else {
        assert Select(rs, c2) == Select(t, c2);
      }
    }
  }

  lemma SelectCons(x: Review, rs: seq<Review>, c: Criterion)
    ensures Select([x] + rs, c) == (if Matches(c, x) then [x] else []) + Select(rs, c)
  {
  }

  /** A filter every review passes changes nothing. */
  lemma {:induction false} SelectAll(rs: seq<Review>, c: Criterion)
    requires forall x :: x in rs ==> Matches(c, x)
    ensures Select(rs, c) == rs
  {
    if rs != [] {
      SelectAll(rs[1..], c);
    }
  }

  /** A filter no review passes selects nothing. */
  lemma {:induction false} SelectNone(rs: seq<Review>, c: Criterion)
    requires forall x :: x in rs ==> !Matches(c, x)
    ensures Select(rs, c) == []
  {
    if rs != [] {
      SelectNone(rs[1..], c);
    }
  }

  // ----- The table as functions ---------------------------------------------

  /** `Book.reviews`: the stored reviews whose book is `book`. */
  function ReviewsOf(db: Db, book: BookId): (rs: seq<Review>)
    ensures forall r :: r in rs <==> r in db.reviews && r.book == book
    ensures forall r :: multiset(rs)[r] == if r.book == book then multiset(db.reviews)[r] else 0
    ensures UniquePairs(db.reviews) ==> UniquePairs(rs)
    ensures |rs| <= |db.reviews|
  {
    SelectCounts(db.reviews, BookIs(book));
    if UniquePairs(db.reviews) then SelectKeepsUnique(db.reviews, BookIs(book)); Select(db.reviews, BookIs(book))
    else Select(db.reviews, BookIs(book))
  }

  function Empty(): (db: Db)
    ensures Consistent(db)
    ensures db.reviews == [] && db.users == map[] && db.books == map[]
  {
    Db(map[], map[], [], 0, 0)
  }

  datatype Created = Created(db: Db, id: nat)

  /** Registering a user stores it under a fresh id. */
  function CreateUser(db: Db, user: User): (r: Created)
    ensures Consistent(db) ==> r.id !in db.users
    ensures r.db.users == db.users[r.id := user]
    ensures r.db.books == db.books && r.db.reviews == db.reviews
    ensures r.id == db.nextUserId < r.db.nextUserId && r.db.nextBookId == db.nextBookId
  {
    Created(db.(users := db.users[db.nextUserId := user], nextUserId := db.nextUserId + 1), db.nextUserId)
  }

  /** `Book.objects.create`: the book is stored under a fresh id. */
  function CreateBook(db: Db, book: Book): (r: Created)
    ensures Consistent(db) ==> r.id !in db.books
    ensures r.db.books == db.books[r.id := book]
    ensures r.db.users == db.users && r.db.reviews == db.reviews
    ensures r.id == db.nextBookId < r.db.nextBookId && r.db.nextUserId == db.nextUserId
  {
    Created(db.(books := db.books[db.nextBookId := book], nextBookId := db.nextBookId + 1), db.nextBookId)
  }

  /** Why the database refuses a review row. */
  datatype IntegrityError = UnknownUser | UnknownBook | DuplicateReview

  datatype Inserted = Inserted(db: Db, outcome: Outcome<IntegrityError>)

  /**
   * `Review.objects.create`: both foreign keys must resolve and the pair
   * must not have a review yet; a refused insert changes nothing.
   */
  function InsertReview(db: Db, user: UserId, book: BookId, reviewText: string, rating: int): (r: Inserted)
    ensures r.outcome.Pass? <==> user in db.users && book in db.books && !HasReview(db.reviews, user, book)
    ensures r.outcome.Fail? ==> r.db == db
    ensures r.outcome == Fail(DuplicateReview) <==>
      user in db.users && book in db.books && HasReview(db.reviews, user, book)
    ensures r.outcome.Pass? ==> r.db == db.(reviews := db.reviews + [Review(user, book, reviewText, rating)])
  {
    if user !in db.users then Inserted(db, Fail(UnknownUser))
    else if book !in db.books then Inserted(db, Fail(UnknownBook))
    else if HasReview(db.reviews, user, book) then Inserted(db, Fail(DuplicateReview))
    else Inserted(db.(reviews := db.reviews + [Review(user, book, reviewText, rating)]), Pass)
  }

  /** Deleting a book deletes, by cascade, every review of it. */
  function DeleteBook(db: Db, book: BookId): (r: Db)
    ensures book !in r.books && r.books == db.books - {book}
    ensures r.users == db.users
    ensures forall x :: x in r.reviews <==> x in db.reviews && x.book != book
    ensures r.nextUserId == db.nextUserId && r.nextBookId == db.nextBookId
  {
    db.(books := db.books - {book}, reviews := Select(db.reviews, BookIsNot(book)))
  }

  /** Deleting a user deletes, by cascade, every review by them. */
  function DeleteUser(db: Db, user: UserId): (r: Db)
    ensures user !in r.users && r.users == db.users - {user}
    ensures r.books == db.books
    ensures forall x :: x in r.reviews <==> x in db.reviews && x.user != user
    ensures r.nextUserId == db.nextUserId && r.nextBookId == db.nextBookId
  {
    db.(users := db.users - {user}, reviews := Select(db.reviews, UserIsNot(user)))
  }

  // ----- What the table guarantees ------------------------------------------

  lemma CreateUserKeepsConsistent(db: Db, user: User)
    requires Consistent(db)
    ensures Consistent(CreateUser(db, user).db)
  {
  }

  lemma CreateBookKeepsConsistent(db: Db, book: Book)
    requires Consistent(db)
    ensures Consistent(CreateBook(db, book).db)
  {
  }

  /** Every insert, accepted or refused, keeps the table consistent. */
  lemma InsertKeepsConsistent(db: Db, user: UserId, book: BookId, reviewText: string, rating: int)
    requires Consistent(db)
    ensures Consistent(InsertReview(db, user, book, reviewText, rating).db)
  {
  }

  lemma DeleteBookKeepsConsistent(db: Db, book: BookId)
    requires Consistent(db)
    ensures Consistent(DeleteBook(db, book))
  {
    SelectKeepsUnique(db.reviews, BookIsNot(book));
  }

  lemma DeleteUserKeepsConsistent(db: Db, user: UserId)
    requires Consistent(db)
    ensures Consistent(DeleteUser(db, user))
  {
    SelectKeepsUnique(db.reviews, UserIsNot(user));
  }

  /** A second review of the same book by the same user is refused and the table stays as it was. */
  lemma DuplicateReviewRejected(db: Db, user: UserId, book: BookId, reviewText: string, rating: int)
    requires Consistent(db)
    requires HasReview(db.reviews, user, book)
    ensures InsertReview(db, user, book, reviewText, rating) == Inserted(db, Fail(DuplicateReview))
  {
  }

  /**
   * A review for a new pair adds exactly that review: the book's review
   * list grows by it at the end, and every other book's list is unchanged.
   */
  lemma InsertNewPairAddsOne(db: Db, user: UserId, book: BookId, reviewText: string, rating: int)
    requires user in db.users && book in db.books && !HasReview(db.reviews, user, book)
    ensures var after := InsertReview(db, user, book, reviewText, rating).db;
      && ReviewsOf(after, book) == ReviewsOf(db, book) + [Review(user, book, reviewText, rating)]
      && |ReviewsOf(after, book)| == |ReviewsOf(db, book)| + 1
      && |after.reviews| == |db.reviews| + 1
      && forall other :: other != book ==> ReviewsOf(after, other) == ReviewsOf(db, other)
  {
    var x := Review(user, book, reviewText, rating);
    SelectAppend(db.reviews, x, BookIs(book));
    forall other | other != book
      ensures ReviewsOf(db.(reviews := db.reviews + [x]), other) == ReviewsOf(db, other)
    {
      SelectAppend(db.reviews, x, BookIs(other));
    }
  }

  /** Deleting a book empties its review list and leaves every other book's list as it was. */
  lemma DeleteBookCascades(db: Db, book: BookId)
    ensures ReviewsOf(DeleteBook(db, book), book) == []
    ensures forall other :: other != book ==> ReviewsOf(DeleteBook(db, book), other) == ReviewsOf(db, other)
  {
    SelectNone(DeleteBook(db, book).reviews, BookIs(book));
    forall other | other != book
      ensures ReviewsOf(DeleteBook(db, book), other) == ReviewsOf(db, other)
    {
      SelectCommutes(db.reviews, BookIsNot(book), BookIs(other));
      SelectAll(Select(db.reviews, BookIs(other)), BookIsNot(book));
    }
  }

  /**
   * Deleting a user removes exactly their reviews from every book's list,
   * keeping the order of the rest; other users' reviews all stay.
   */
  lemma DeleteUserCascades(db: Db, user: UserId)
    ensures forall book :: ReviewsOf(DeleteUser(db, user), book) == Select(ReviewsOf(db, book), UserIsNot(user))
    ensures forall r :: r in db.reviews && r.user != user ==> r in DeleteUser(db, user).reviews
  {
    forall book
      ensures ReviewsOf(DeleteUser(db, user), book) == Select(ReviewsOf(db, book), UserIsNot(user))
    {
      SelectCommutes(db.reviews, UserIsNot(user), BookIs(book));
    }
  }

  // ----- Any run of operations ----------------------------------------------

  datatype Op =
    | AddUser(user: User)
    | AddBook(book: Book)
    | AddReview(reviewer: UserId, reviewed: BookId, reviewText: string, rating: int)
    | RemoveBook(removedBook: BookId)
    | RemoveUser(removedUser: UserId)

  function Apply(db: Db, op: Op): Db {
    match op
    case AddUser(u) => CreateUser(db, u).db
    case AddBook(b) => CreateBook(db, b).db
    case AddReview(u, b, t, rating) => InsertReview(db, u, b, t, rating).db
    case RemoveBook(b) => DeleteBook(db, b)
    case RemoveUser(u) => DeleteUser(db, u)
  }

  function Run(db: Db, ops: seq<Op>): Db
    decreases |ops|
  {
    if ops == [] then db else Run(Apply(db, ops[0]), ops[1..])
  }

  lemma ApplyKeepsConsistent(db: Db, op: Op)
    requires Consistent(db)
    ensures Consistent(Apply(db, op))
  {
    match op
    case AddUser(u) => CreateUserKeepsConsistent(db, u);
    case AddBook(b) => CreateBookKeepsConsistent(db, b);
    case AddReview(u, b, t, rating) => InsertKeepsConsistent(db, u, b, t, rating);
    case RemoveBook(b) => DeleteBookKeepsConsistent(db, b);
    case RemoveUser(u) => DeleteUserKeepsConsistent(db, u);
  }

  /**
   * After any sequence of operations, successful or refused, starting from
   * any consistent table, the table is still consistent; in particular no
   * two stored reviews share a (user, book) pair.
   */
  lemma {:induction false} RunKeepsConsistent(db: Db, ops: seq<Op>)
    requires Consistent(db)
    ensures Consistent(Run(db, ops))
    ensures UniquePairs(Run(db, ops).reviews)
    decreases |ops|
  {
    if ops != [] {
      ApplyKeepsConsistent(db, ops[0]);
      RunKeepsConsistent(Apply(db, ops[0]), ops[1..]);
    }
  }

  /**
   * No operation rewrites a stored row: a user or a book present before and
   * after keeps its fields, and the id counters never go down.
   */
  lemma ApplyKeepsRows(db: Db, op: Op)
    requires Consistent(db)
    ensures forall b :: b in db.books && b in Apply(db, op).books ==> Apply(db, op).books[b] == db.books[b]
    ensures forall u :: u in db.users && u in Apply(db, op).users ==> Apply(db, op).users[u] == db.users[u]
    ensures db.nextUserId <= Apply(db, op).nextUserId && db.nextBookId <= Apply(db, op).nextBookId
  {
  }

  /**
   * Ids are never reused: a book id that was handed out and is no longer in
   * use stays unused, whatever operations follow.
   */
  lemma {:induction false} FreedBookIdStaysFree(db: Db, ops: seq<Op>, b: BookId)
    requires b < db.nextBookId && b !in db.books
    ensures b < Run(db, ops).nextBookId && b !in Run(db, ops).books
    decreases |ops|
  {
    if ops != [] {
      var next := Apply(db, ops[0]);
      assert b < next.nextBookId && b !in next.books;
      FreedBookIdStaysFree(next, ops[1..], b);
    }
  }

  /** The same for user ids. */
  lemma {:induction false} FreedUserIdStaysFree(db: Db, ops: seq<Op>, u: UserId)
    requires u < db.nextUserId && u !in db.users
    ensures u < Run(db, ops).nextUserId && u !in Run(db, ops).users
    decreases |ops|
  {
    if ops != [] {
      var next := Apply(db, ops[0]);
      assert u < next.nextUserId && u !in next.users;
      FreedUserIdStaysFree(next, ops[1..], u);
    }
  }

  /**
   * Across any run of operations, a book or user that is there at the start
   * and at the end is the same row: it was never deleted and re-created
   * under its id, and nothing edited it.
   */
  lemma {:induction false} RunKeepsRows(db: Db, ops: seq<Op>)
    requires Consistent(db)
    ensures forall b :: b in db.books && b in Run(db, ops).books ==> Run(db, ops).books[b] == db.books[b]
    ensures forall u :: u in db.users && u in Run(db, ops).users ==> Run(db, ops).users[u] == db.users[u]
    decreases |ops|
  {
    if ops != [] {
      var next := Apply(db, ops[0]);
      ApplyKeepsConsistent(db, ops[0]);
      ApplyKeepsRows(db, ops[0]);
      RunKeepsRows(next, ops[1..]);
      assert Run(db, ops) == Run(next, ops[1..]);
      forall b | b in db.books && b in Run(db, ops).books
        ensures Run(db, ops).books[b] == db.books[b]
      {
        if b !in next.books {
          FreedBookIdStaysFree(next, ops[1..], b);
        }
      }
      forall u | u in db.users && u in Run(db, ops).users
        ensures Run(db, ops).users[u] == db.users[u]
      {
        if u !in next.users {
          FreedUserIdStaysFree(next, ops[1..], u);
        }
      }
    }
  }

  /** A book still stored after any run of operations prints as it did before. */
  lemma BookStringSurvives(db: Db, ops: seq<Op>, b: BookId)
    requires Consistent(db) && b in db.books && b in Run(db, ops).books
    ensures BookToString(Run(db, ops).books[b]) == BookToString(db.books[b])
  {
    RunKeepsRows(db, ops);
  }

  /**
   * A review still stored after any run of operations still resolves its
   * book and its user, and prints as it did before.
   */
  lemma ReviewStringSurvives(db: Db, ops: seq<Op>, r: Review)
    requires Consistent(db) && r in db.reviews && r in Run(db, ops).reviews
    ensures r.book in Run(db, ops).books && r.user in Run(db, ops).users
    ensures ReviewToString(Run(db, ops), r) == ReviewToString(db, r)
  {
    RunKeepsConsistent(db, ops);
    RunKeepsRows(db, ops);
  }

  // ----- The table as mutable state -----------------------------------------

  /** The rows of the three tables, changed in place by each operation. */
  class ReviewTable {
    var users: map<UserId, User>
    var books: map<BookId, Book>
    var reviews: seq<Review>
    var nextUserId: nat
    var nextBookId: nat

    function Snapshot(): Db
      reads this
    {
      Db(users, books, reviews, nextUserId, nextBookId)
    }

    ghost predicate Valid()
      reads this
    {
      Consistent(Snapshot())
    }

    constructor ()
      ensures Valid() && Snapshot() == Empty()
    {
      users, books, reviews := map[], map[], [];
      nextUserId, nextBookId := 0, 0;
    }

    method AddUser(user: User) returns (id: UserId)
      requires Valid()
      modifies this
      ensures Valid()
      ensures Created(Snapshot(), id) == CreateUser(old(Snapshot()), user)
    {
      CreateUserKeepsConsistent(Snapshot(), user);
      id := nextUserId;
      users := users[id := user];
      nextUserId := nextUserId + 1;
    }

    method AddBook(book: Book) returns (id: BookId)
      requires Valid()
      modifies this
      ensures Valid()
      ensures Created(Snapshot(), id) == CreateBook(old(Snapshot()), book)
    {
      CreateBookKeepsConsistent(Snapshot(), book);
      id := nextBookId;
      books := books[id := book];
      nextBookId := nextBookId + 1;
    }

    /** Adds the review, or reports why the database refuses it and changes nothing. */
    method AddReview(user: UserId, book: BookId, reviewText: string, rating: int)
      returns (outcome: Outcome<IntegrityError>)
      requires Valid()
      modifies this
      ensures Valid()
      ensures Inserted(Snapshot(), outcome) == InsertReview(old(Snapshot()), user, book, reviewText, rating)
      ensures outcome.Fail? ==> unchanged(this)
    {
      InsertKeepsConsistent(Snapshot(), user, book, reviewText, rating);
      if user !in users {
        outcome := Fail(UnknownUser);
      } else if book !in books {
        outcome := Fail(UnknownBook);
      } else if HasReview(reviews, user, book) {
        outcome := Fail(DuplicateReview);
      } else {
        reviews := reviews + [Review(user, book, reviewText, rating)];
        outcome := Pass;
      }
    }

    method RemoveBook(book: BookId)
      requires Valid()
      modifies this
      ensures Valid()
      ensures Snapshot() == DeleteBook(old(Snapshot()), book)
    {
      DeleteBookKeepsConsistent(Snapshot(), book);
      books := books - {book};
      reviews := Select(reviews, BookIsNot(book));
    }

    method RemoveUser(user: UserId)
      requires Valid()
      modifies this
      ensures Valid()
      ensures Snapshot() == DeleteUser(old(Snapshot()), user)
    {
      DeleteUserKeepsConsistent(Snapshot(), user);
      users := users - {user};
      reviews := Select(reviews, UserIsNot(user));
    }
  }
}
