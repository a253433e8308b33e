/** Borrowing and returning books. A loan is open until it is returned; each
    open loan holds one unit of its book's `availableCopies`. */
module BorrowService {
  import opened Outcomes
  import opened Tables
  import opened Models

  /** The body of a borrow request. */
  datatype BorrowCreate = BorrowCreate(bookId: int, userId: Option<int>, days: int, notes: Option<string>)

  /** The range of `datetime` in seconds since the epoch: 0001-01-01T00:00:00
      to 9999-12-31T23:59:59, in UTC. */
  const MinTimestamp: int := -62135596800
  const MaxTimestamp: int := 253402300799

  /** The largest magnitude `timedelta(days=...)` accepts. */
  const MaxTimedeltaDays: int := 999999999

  /** `now + timedelta(days=days)` raises no `OverflowError`: the delta can be
      built and the sum is still a `datetime`. */
  predicate DueDateFits(now: int, days: int) {
    -MaxTimedeltaDays <= days <= MaxTimedeltaDays
    && MinTimestamp <= now + days * SecondsPerDay <= MaxTimestamp
  }

  /** A borrow plus the database it leaves behind. */
  type Change = (Db, Borrow)

  /** The test `return_borrow` uses for "already returned". */
  predicate IsReturned(loan: Borrow) {
    loan.returnedAt.Some? || loan.status == Returned
  }

  /** Whom a borrow is recorded for: a member always borrows for themself; staff
      may name another user, where an absent or zero id means themself. */
  function BorrowOwner(db: Db, actor: User, payload: BorrowCreate): (owner: int)
    ensures IsMember(db, actor) ==> owner == actor.id
    ensures owner == actor.id || payload.userId == Some(owner)
    ensures !IsMember(db, actor) && (payload.userId.None? || payload.userId.value == 0) ==> owner == actor.id
    ensures !IsMember(db, actor) && payload.userId.Some? && payload.userId.value != 0 ==> owner == payload.userId.value
  {
    if IsMember(db, actor) then actor.id
    else if payload.userId.Some? && payload.userId.value != 0 then payload.userId.value
    else actor.id
  }

  /** `borrow_book` at time `now`. */
  function BorrowBook(db: Db, actor: User, payload: BorrowCreate, now: int): (r: Result<Change>)
    ensures payload.bookId !in db.books ==> r == Err(NotFound("Book not found"))
    ensures payload.bookId in db.books && db.books[payload.bookId].availableCopies <= 0 ==>
      r == Err(Conflict("No copies available"))
    ensures (payload.bookId in db.books && db.books[payload.bookId].availableCopies > 0
             && !DueDateFits(now, payload.days)) ==> r == Err(DateOverflow)
    ensures r.Ok? <==> payload.bookId in db.books && db.books[payload.bookId].availableCopies > 0
                       && DueDateFits(now, payload.days) && BorrowOwner(db, actor, payload) in db.users
    ensures r.Ok? ==>
      var (db', loan) := r.value;
      && loan.id !in db.borrows
      && db'.borrows == db.borrows[loan.id := loan]
      && loan.userId == BorrowOwner(db, actor, payload)
      && loan.bookId == payload.bookId
      && loan.status == Active && loan.returnedAt.None?
      && loan.borrowedAt == now && loan.dueDate == now + payload.days * SecondsPerDay
      && loan.notes == payload.notes
    ensures r.Ok? ==>
      var (db', loan) := r.value;
      var book := db.books[payload.bookId];
      && db'.books == db.books[payload.bookId := book.(availableCopies := book.availableCopies - 1)]
      && db'.books[payload.bookId].availableCopies >= 0
      && db'.users == db.users && db'.roles == db.roles && db'.apiKeys == db.apiKeys
  {
    var owner := BorrowOwner(db, actor, payload);
    if payload.bookId !in db.books then Err(NotFound("Book not found"))
    else
      var book := db.books[payload.bookId];
      if book.availableCopies <= 0 then Err(Conflict("No copies available"))
      else if !DueDateFits(now, payload.days) then Err(DateOverflow)
      else if owner !in db.users then Err(IntegrityError)
      else
        var id := FreshKey(db.borrows.Keys);
        var loan := Borrow(id, owner, payload.bookId, Active, now, now + payload.days * SecondsPerDay, None, payload.notes);
        var books := db.books[payload.bookId := book.(availableCopies := book.availableCopies - 1)];
        Ok((db.(books := books, borrows := db.borrows[id := loan]), loan))
  }

  /** `get_borrow`. */
  function GetBorrow(db: Db, borrowId: int): (r: Option<Borrow>)
    ensures r.Some? <==> borrowId in db.borrows
    ensures r.Some? ==> r.value == db.borrows[borrowId]
  {
    if borrowId in db.borrows then Some(db.borrows[borrowId]) else None
  }

  /** After a successful borrow the new loan reads back under its id, and
      every other id reads as before. */
  lemma GetAfterBorrow(db: Db, actor: User, payload: BorrowCreate, now: int, id: int)
    requires BorrowBook(db, actor, payload, now).Ok?
    ensures var (db', loan) := BorrowBook(db, actor, payload, now).value;
      && GetBorrow(db', loan.id) == Some(loan)
      && (id != loan.id ==> GetBorrow(db', id) == GetBorrow(db, id))
  {
  }

  /** `return_borrow` at time `now`. */
  function ReturnBorrow(db: Db, actor: User, borrowId: int, now: int): (r: Result<Change>)
    ensures borrowId !in db.borrows ==> r == Err(NotFound("Borrow not found"))
    ensures borrowId in db.borrows && IsMember(db, actor) && db.borrows[borrowId].userId != actor.id ==>
      r == Err(Forbidden("Forbidden"))
    ensures r.Ok? <==> borrowId in db.borrows && (!IsMember(db, actor) || db.borrows[borrowId].userId == actor.id)
    ensures r.Ok? && IsReturned(db.borrows[borrowId]) ==> r.value == (db, db.borrows[borrowId])
    ensures r.Ok? ==>
      var (db', loan) := r.value;
      var before := db.borrows[borrowId];
      && IsReturned(loan)
      && db'.borrows == db.borrows[borrowId := loan]
      && loan == (if IsReturned(before) then before else before.(status := Returned, returnedAt := Some(now)))
      && db'.books.Keys == db.books.Keys
      && db'.users == db.users && db'.roles == db.roles && db'.apiKeys == db.apiKeys
    ensures r.Ok? && !IsReturned(db.borrows[borrowId]) ==>
      var db' := r.value.0;
      var b := db.borrows[borrowId].bookId;
      && (b in db.books ==> db'.books == db.books[b := db.books[b].(availableCopies := db.books[b].availableCopies + 1)])
      && (b !in db.books ==> db'.books == db.books)
  {
    match GetBorrow(db, borrowId)
    case None => Err(NotFound("Borrow not found"))
    case Some(loan) =>
      if IsMember(db, actor) && loan.userId != actor.id then Err(Forbidden("Forbidden"))
      else if IsReturned(loan) then Ok((db, loan))
      else
        var books :=
          if loan.bookId in db.books then
            var book := db.books[loan.bookId];
            db.books[loan.bookId := book.(availableCopies := book.availableCopies + 1)]
          else db.books;
        var closed := loan.(status := Returned, returnedAt := Some(now));
        Ok((db.(books := books, borrows := db.borrows[borrowId := closed]), closed))
  }

  // ---- listing ----

  /** A member sees only their own loans; every other role sees all of them. */
  predicate Visible(db: Db, actor: User, loan: Borrow) {
    !IsMember(db, actor) || loan.userId == actor.id
  }

  /** The keys of `ids` whose rows are visible, in the order of `ids`. */
  function VisibleAmong(db: Db, actor: User, ids: seq<int>): (r: seq<int>)
    requires forall k :: k in ids ==> k in db.borrows
    ensures forall k :: k in r <==> k in ids && Visible(db, actor, db.borrows[k])
    ensures StrictlyIncreasing(ids) ==> StrictlyIncreasing(r)
  {
    if ids == [] then []
    else
      assert ids[0] in ids;
      var rest := VisibleAmong(db, actor, ids[1..]);
      assert StrictlyIncreasing(ids) ==> forall k :: k in rest ==> ids[0] < k by {
        if StrictlyIncreasing(ids) {
          forall k | k in rest ensures ids[0] < k {
            var j :| 0 <= j < |ids[1..]| && ids[1..][j] == k;
            assert ids[j + 1] == k;
          }
        }
      }
      assert StrictlyIncreasing(ids) ==> StrictlyIncreasing(ids[1..]);
      if Visible(db, actor, db.borrows[ids[0]]) then
        var r := [ids[0]] + rest;
        assert StrictlyIncreasing(ids) ==> StrictlyIncreasing(r) by {
          if StrictlyIncreasing(ids) {
            forall i, j | 0 <= i < j < |r| ensures r[i] < r[j] {
              assert r[j] == rest[j - 1] && rest[j - 1] in rest;
              if i > 0 {
                assert r[i] == rest[i - 1];
              }
            }
          }
        }
        r
      else rest
  }

  /** The keys `list_borrows` selects before paging, in ascending order. */
  function VisibleIds(db: Db, actor: User): (ids: seq<int>)
    ensures StrictlyIncreasing(ids)
    ensures forall k :: k in ids <==> k in db.borrows && Visible(db, actor, db.borrows[k])
  {
    VisibleAmong(db, actor, SortedKeys(db.borrows.Keys))
  }

  /** The rows stored under `keys`, in the same order. */
  function Rows(db: Db, keys: seq<int>): (rows: seq<Borrow>)
    requires forall i :: 0 <= i < |keys| ==> keys[i] in db.borrows
    ensures |rows| == |keys|
    ensures forall i :: 0 <= i < |keys| ==> rows[i] == db.borrows[keys[i]]
  {
    if keys == [] then [] else [db.borrows[keys[0]]] + Rows(db, keys[1..])
  }

  /** `list_borrows`: visible loans by ascending id, `skip` dropped, at most `limit` kept. */
  function ListBorrows(db: Db, actor: User, skip: nat, limit: nat): (page: seq<Borrow>)
    ensures var ids := VisibleIds(db, actor);
      && |page| == (if skip >= |ids| then 0 else if |ids| - skip < limit then |ids| - skip else limit)
      && forall i :: 0 <= i < |page| ==> skip + i < |ids| && page[i] == db.borrows[ids[skip + i]]
  {
    var ids := VisibleIds(db, actor);
    var window := Window(ids, skip, limit);
    assert forall i :: 0 <= i < |window| ==> window[i] in db.borrows by {
      forall i | 0 <= i < |window| ensures window[i] in db.borrows {
        assert ids[skip + i] in ids;
      }
    }
    Rows(db, window)
  }

  /** A member's listing holds only their own loans. */
  lemma MemberListsOwnLoans(db: Db, actor: User, skip: nat, limit: nat)
    requires IsMember(db, actor)
    ensures forall loan :: loan in ListBorrows(db, actor, skip, limit) ==> loan.userId == actor.id
  {
    var page := ListBorrows(db, actor, skip, limit);
    var ids := VisibleIds(db, actor);
    forall loan | loan in page ensures loan.userId == actor.id {
      var i :| 0 <= i < |page| && page[i] == loan;
      assert ids[skip + i] in ids;
    }
  }

  /** Staff listing everything from the start with a large enough limit see every loan. */
  lemma StaffListsEveryLoan(db: Db, actor: User, limit: nat, key: int)
    requires !IsMember(db, actor)
    requires limit >= |db.borrows|
    requires key in db.borrows
    ensures db.borrows[key] in ListBorrows(db, actor, 0, limit)
  {
    var ids := VisibleIds(db, actor);
    var page := ListBorrows(db, actor, 0, limit);
    var i :| 0 <= i < |ids| && ids[i] == key;
    assert |ids| <= |db.borrows| by {
      assert forall k :: k in ids ==> k in db.borrows.Keys;
      SeqSetSize(ids, db.borrows.Keys);
    }
    assert page[i] == db.borrows[key];
  }

  /** A strictly increasing sequence inside a set is no longer than the set. */
  lemma {:induction false} SeqSetSize(xs: seq<int>, s: set<int>)
    requires StrictlyIncreasing(xs)
    requires forall k :: k in xs ==> k in s
    ensures |xs| <= |s|
  {
    if xs != [] {
      assert xs[0] in xs;
      var rest := xs[1..];
      assert forall k :: k in rest ==> k in s - {xs[0]} by {
        forall k | k in rest ensures k in s - {xs[0]} {
          var j :| 0 <= j < |rest| && rest[j] == k;
          assert xs[j + 1] == k;
        }
      }
      SeqSetSize(rest, s - {xs[0]});
    }
  }

  // ---- the stock of each book ----

  /** Keys of the open loans of book `bookId`. */
  function OpenLoans(borrows: map<int, Borrow>, bookId: int): set<int> {
    set id | id in borrows && borrows[id].bookId == bookId && !IsReturned(borrows[id])
  }

  /** Copies on the shelf plus copies out on loan. */
  function Stock(db: Db, bookId: int): int
    requires bookId in db.books
  {
    db.books[bookId].availableCopies + |OpenLoans(db.borrows, bookId)|
  }

  /** Every book's counter matches its copies minus its open loans. */
  predicate Consistent(db: Db) {
    forall b :: b in db.books ==> Stock(db, b) == db.books[b].totalCopies
  }

  /** No book's counter is negative. */
  predicate NonNegative(db: Db) {
    forall b :: b in db.books ==> db.books[b].availableCopies >= 0
  }

  lemma {:induction false} OpenLoansAfterInsert(borrows: map<int, Borrow>, id: int, loan: Borrow, b: int)
    requires id !in borrows
    ensures |OpenLoans(borrows[id := loan], b)| ==
      |OpenLoans(borrows, b)| + (if loan.bookId == b && !IsReturned(loan) then 1 else 0)
  {
    var before, after := OpenLoans(borrows, b), OpenLoans(borrows[id := loan], b);
    if loan.bookId == b && !IsReturned(loan) {
      assert after == before + {id};
    } else {
      assert after == before;
    }
  }

  lemma {:induction false} OpenLoansAfterClose(borrows: map<int, Borrow>, id: int, closed: Borrow, b: int)
    requires id in borrows && !IsReturned(borrows[id])
    requires IsReturned(closed) && closed.bookId == borrows[id].bookId
    ensures |OpenLoans(borrows[id := closed], b)| ==
      |OpenLoans(borrows, b)| - (if closed.bookId == b then 1 else 0)
  {
    var before, after := OpenLoans(borrows, b), OpenLoans(borrows[id := closed], b);
    if closed.bookId == b {
      assert after == before - {id};
    } else {
      assert after == before;
    }
  }

  /** Borrowing moves one copy from the shelf to a loan: no book's stock changes. */
  lemma {:induction false} BorrowKeepsStock(db: Db, actor: User, payload: BorrowCreate, now: int, b: int)
    requires BorrowBook(db, actor, payload, now).Ok?
    requires b in db.books
    ensures var db' := BorrowBook(db, actor, payload, now).value.0;
      b in db'.books && Stock(db', b) == Stock(db, b)
  {
    var (db', loan) := BorrowBook(db, actor, payload, now).value;
    OpenLoansAfterInsert(db.borrows, loan.id, loan, b);
  }

  /** A first return moves the copy back: no book's stock changes. */
  lemma {:induction false} ReturnKeepsStock(db: Db, actor: User, borrowId: int, now: int, b: int)
    requires ReturnBorrow(db, actor, borrowId, now).Ok?
    requires b in db.books
    ensures var db' := ReturnBorrow(db, actor, borrowId, now).value.0;
      b in db'.books && Stock(db', b) == Stock(db, b)
  {
    var (db', loan) := ReturnBorrow(db, actor, borrowId, now).value;
    if !IsReturned(db.borrows[borrowId]) {
      OpenLoansAfterClose(db.borrows, borrowId, loan, b);
    }
  }

  lemma BorrowPreservesInvariants(db: Db, actor: User, payload: BorrowCreate, now: int)
    requires Consistent(db) && NonNegative(db)
    requires BorrowBook(db, actor, payload, now).Ok?
    ensures var db' := BorrowBook(db, actor, payload, now).value.0;
      Consistent(db') && NonNegative(db')
  {
    var db' := BorrowBook(db, actor, payload, now).value.0;
    forall b | b in db'.books ensures Stock(db', b) == db'.books[b].totalCopies {
      BorrowKeepsStock(db, actor, payload, now, b);
    }
  }

  lemma ReturnPreservesInvariants(db: Db, actor: User, borrowId: int, now: int)
    requires Consistent(db) && NonNegative(db)
    requires ReturnBorrow(db, actor, borrowId, now).Ok?
    ensures var db' := ReturnBorrow(db, actor, borrowId, now).value.0;
      Consistent(db') && NonNegative(db')
  {
    var db' := ReturnBorrow(db, actor, borrowId, now).value.0;
    forall b | b in db'.books ensures Stock(db', b) == db'.books[b].totalCopies {
      ReturnKeepsStock(db, actor, borrowId, now, b);
    }
  }

  /** Under the invariants every counter lies between 0 and the book's total. */
  lemma CounterBounds(db: Db, b: int)
    requires Consistent(db) && NonNegative(db)
    requires b in db.books
    ensures 0 <= db.books[b].availableCopies <= db.books[b].totalCopies
  {
  }

  /** Returning twice is returning once: the second call changes nothing and
      gives back the record the first produced. */
  lemma ReturnIsIdempotent(db: Db, actor: User, borrowId: int, now: int, later: int)
    requires ReturnBorrow(db, actor, borrowId, now).Ok?
    ensures var (db', loan) := ReturnBorrow(db, actor, borrowId, now).value;
      ReturnBorrow(db', actor, borrowId, later) == Ok((db', loan))
  {
  }
}
