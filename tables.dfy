/**
 * What each write statement of the repository does to its table.
 *
 * Every table has an AUTO_INCREMENT primary key: a `Table` holds the rows by
 * id and the next id the database hands out. The unique keys are the ISBN of
 * a book, the card number of a reader and the name of a category or a
 * publisher; `INSERT ... ON DUPLICATE KEY UPDATE` on such a key either adds a
 * row under a fresh id or updates the row that already has the key. Either
 * way the statement allocates one AUTO_INCREMENT value (InnoDB's default lock
 * modes), so the update path loses an id.
 */
module Tables {
  import opened Records

  datatype Table<V> = Table(rows: map<int, V>, next: int)

  /** Every row id was handed out by the counter: positive and below `next`. */
  ghost predicate Numbered<V>(t: Table<V>) {
    1 <= t.next && forall id :: id in t.rows ==> 0 < id < t.next
  }

  /** Each row's own id column equals the key it is stored under. */
  ghost predicate RowsCarryIds<V>(t: Table<V>, rowId: V -> int) {
    forall id :: id in t.rows ==> rowId(t.rows[id]) == id
  }

  /** A UNIQUE index on the column `key`. */
  ghost predicate UniqueOn<V>(t: Table<V>, key: V -> string) {
    forall a, b :: a in t.rows && b in t.rows && key(t.rows[a]) == key(t.rows[b]) ==> a == b
  }

  ghost predicate HasKey<V>(t: Table<V>, key: V -> string, k: string) {
    exists id :: id in t.rows && key(t.rows[id]) == k
  }

  ghost predicate BooksOk(t: Table<Book>) {
    Numbered(t) && RowsCarryIds(t, BookRowId) && UniqueOn(t, BookIsbn)
  }

  ghost predicate ReadersOk(t: Table<Reader>) {
    Numbered(t) && RowsCarryIds(t, ReaderRowId) && UniqueOn(t, ReaderCard)
  }

  ghost predicate LoansOk(t: Table<Loan>) {
    Numbered(t) && RowsCarryIds(t, LoanRowId)
  }

  ghost predicate NamesOk(t: Table<string>) {
    Numbered(t) && UniqueOn(t, NameKey)
  }

  /** The unique-index lookup: the id below `bound` whose row has key `k`, if any. */
  function FindBelow<V>(rows: map<int, V>, key: V -> string, k: string, bound: int): (r: Option<int>)
    ensures r.Some? ==> 0 < r.value < bound && r.value in rows && key(rows[r.value]) == k
    ensures r.None? ==> forall id :: 0 < id < bound && id in rows ==> key(rows[id]) != k
    decreases bound
  {
    if bound <= 1 then None
    else if bound - 1 in rows && key(rows[bound - 1]) == k then Some(bound - 1)
    else FindBelow(rows, key, k, bound - 1)
  }

  function Find<V>(t: Table<V>, key: V -> string, k: string): (r: Option<int>)
    requires Numbered(t)
    ensures r.Some? ==> r.value in t.rows && key(t.rows[r.value]) == k
    ensures r.None? <==> !HasKey(t, key, k)
  {
    FindBelow(t.rows, key, k, t.next)
  }

  /**
   * `INSERT INTO <table>(name) VALUES (?) ON DUPLICATE KEY UPDATE
   * id=LAST_INSERT_ID(id)`, followed by reading the generated key: the id of
   * the row named `name`, and the table afterwards. A name already present
   * keeps its row, and the value the statement allocated is lost.
   */
  function UpsertName(t: Table<string>, name: string): (r: (int, Table<string>))
    requires NamesOk(t)
    ensures NamesOk(r.1)
    ensures r.0 in r.1.rows && r.1.rows[r.0] == name
    ensures HasKey(t, NameKey, name) ==> r.0 in t.rows && r.1 == Table(t.rows, t.next + 1)
    ensures !HasKey(t, NameKey, name) ==>
              r.0 == t.next && r.0 !in t.rows && r.1 == Table(t.rows[t.next := name], t.next + 1)
  {
    match Find(t, NameKey, name)
    case Some(id) => (id, Table(t.rows, t.next + 1))
    case None => (t.next, Table(t.rows[t.next := name], t.next + 1))
  }

  /** The id an upsert of `name` returns is the only row with that name. */
  lemma {:induction false} UpsertNameIsTheRow(t: Table<string>, name: string, id: int)
    requires NamesOk(t)
    requires id in UpsertName(t, name).1.rows && UpsertName(t, name).1.rows[id] == name
    ensures UpsertName(t, name).0 == id
  {
    var (got, t1) := UpsertName(t, name);
    assert NamesOk(t1);
    assert NameKey(t1.rows[got]) == NameKey(t1.rows[id]);
  }

  /** Upserting the same name twice returns the same id and adds no row the second time; only the counter moves. */
  lemma {:induction false} UpsertNameTwice(t: Table<string>, name: string)
    requires NamesOk(t)
    ensures UpsertName(UpsertName(t, name).1, name).0 == UpsertName(t, name).0
    ensures UpsertName(UpsertName(t, name).1, name).1.rows == UpsertName(t, name).1.rows
    ensures UpsertName(UpsertName(t, name).1, name).1.next == UpsertName(t, name).1.next + 1
  {
    var (id1, t1) := UpsertName(t, name);
    assert NamesOk(t1);
    assert HasKey(t1, NameKey, name) by { assert NameKey(t1.rows[id1]) == name; }
    var (id2, t2) := UpsertName(t1, name);
    assert NameKey(t1.rows[id2]) == NameKey(t1.rows[id1]);
  }

  /**
   * `INSERT INTO books (...) VALUES (...) ON DUPLICATE KEY UPDATE title, category_id,
   * publisher_id, published_date, total_copies, available_copies`. The id of `b` is
   * not written: a new row gets the next id; an update loses it.
   */
  function UpsertBook(t: Table<Book>, b: Book): (r: Table<Book>)
    requires BooksOk(t)
    ensures BooksOk(r)
  {
    match Find(t, BookIsbn, b.isbn)
    case Some(id) =>
      Table(t.rows[id := t.rows[id].(title := b.title, categoryId := b.categoryId,
                                      publisherId := b.publisherId, publishedDate := b.publishedDate,
                                      totalCopies := b.totalCopies, availableCopies := b.availableCopies)],
            t.next + 1)
    case None =>
      Table(t.rows[t.next := b.(id := t.next)], t.next + 1)
  }

  /** On an ISBN already present, every written column of that row is overwritten, no other row changes, and one id is lost. */
  lemma UpsertBookOverwrites(t: Table<Book>, b: Book, id: int)
    requires BooksOk(t) && id in t.rows && t.rows[id].isbn == b.isbn
    ensures UpsertBook(t, b) ==
              Table(t.rows[id := Book(id, b.isbn, b.title, b.categoryId, b.publisherId,
                                      b.publishedDate, b.totalCopies, b.availableCopies)], t.next + 1)
  {
    var found := Find(t, BookIsbn, b.isbn);
    assert found.Some? by { assert BookIsbn(t.rows[id]) == b.isbn; }
    assert BookIsbn(t.rows[found.value]) == BookIsbn(t.rows[id]);
  }

  /** On a new ISBN, exactly one book is added, under the next id. */
  lemma UpsertBookAdds(t: Table<Book>, b: Book)
    requires BooksOk(t) && forall id :: id in t.rows ==> t.rows[id].isbn != b.isbn
    ensures t.next !in t.rows
    ensures UpsertBook(t, b) == Table(t.rows[t.next := b.(id := t.next)], t.next + 1)
  {
    assert !HasKey(t, BookIsbn, b.isbn);
  }

  /**
   * `INSERT INTO readers (...) VALUES (...) ON DUPLICATE KEY UPDATE name, card_expiry`:
   * on a card number already present only the name and the expiry change.
   */
  function UpsertReader(t: Table<Reader>, r: Reader): (u: Table<Reader>)
    requires ReadersOk(t)
    ensures ReadersOk(u)
    ensures t.rows.Keys <= u.rows.Keys
    ensures forall id :: id in t.rows ==> u.rows[id].outstandingFine == t.rows[id].outstandingFine
    ensures exists id :: id in u.rows && u.rows[id].cardNumber == r.cardNumber
                         && u.rows[id].name == r.name && u.rows[id].cardExpiry == r.cardExpiry
  {
    match Find(t, ReaderCard, r.cardNumber)
    case Some(id) =>
      var u := Table(t.rows[id := t.rows[id].(name := r.name, cardExpiry := r.cardExpiry)], t.next + 1);
      assert u.rows[id].cardNumber == r.cardNumber;
      u
    case None =>
      var u := Table(t.rows[t.next := r.(id := t.next)], t.next + 1);
      assert u.rows[t.next].cardNumber == r.cardNumber;
      u
  }

  /** On a card number already present, only that reader's name and expiry change; its outstanding fine is kept and one id is lost. */
  lemma UpsertReaderKeepsFine(t: Table<Reader>, r: Reader, id: int)
    requires ReadersOk(t) && id in t.rows && t.rows[id].cardNumber == r.cardNumber
    ensures UpsertReader(t, r) ==
              Table(t.rows[id := Reader(id, r.name, r.cardNumber, r.cardExpiry, t.rows[id].outstandingFine)], t.next + 1)
  {
    var found := Find(t, ReaderCard, r.cardNumber);
    assert found.Some? by { assert ReaderCard(t.rows[id]) == r.cardNumber; }
    assert ReaderCard(t.rows[found.value]) == ReaderCard(t.rows[id]);
  }

  /** On a new card number, exactly one reader is added, with the outstanding fine given. */
  lemma UpsertReaderAdds(t: Table<Reader>, r: Reader)
    requires ReadersOk(t) && forall id :: id in t.rows ==> t.rows[id].cardNumber != r.cardNumber
    ensures t.next !in t.rows
    ensures UpsertReader(t, r) == Table(t.rows[t.next := r.(id := t.next)], t.next + 1)
  {
    assert !HasKey(t, ReaderCard, r.cardNumber);
  }

  /**
   * `INSERT INTO loans (book_id, reader_id, borrowed_date, due_date, renewals, fine_paid)
   * VALUES (?,?,CURDATE(),?,0,0)`: one open loan under the next id.
   */
  function Borrow(t: Table<Loan>, readerId: int, bookId: int, dueDate: Day, today: Day): (r: Table<Loan>)
    requires LoansOk(t)
    ensures LoansOk(r)
    ensures t.next !in t.rows && r.rows.Keys == t.rows.Keys + {t.next}
    ensures r.rows[t.next] == Loan(t.next, bookId, readerId, today, dueDate, None, 0, 0.0)
    ensures forall id :: id in t.rows ==> r.rows[id] == t.rows[id]
  {
    Table(t.rows[t.next := Loan(t.next, bookId, readerId, today, dueDate, None, 0, 0.0)], t.next + 1)
  }

  /** `UPDATE loans SET due_date=?, renewals=renewals+1 WHERE id=?`, with no guard on the loan's state. */
  function Renew(t: Table<Loan>, loanId: int, newDueDate: Day): (r: Table<Loan>)
    requires LoansOk(t)
    ensures LoansOk(r) && r.next == t.next && r.rows.Keys == t.rows.Keys
    ensures forall id :: id in t.rows && id != loanId ==> r.rows[id] == t.rows[id]
    ensures loanId !in t.rows ==> r == t
    ensures loanId in t.rows ==>
              var (was, now) := (t.rows[loanId], r.rows[loanId]);
              now.dueDate == newDueDate && now.renewals == was.renewals + 1
              && now.borrowedDate == was.borrowedDate && now.returnedDate == was.returnedDate
              && now.finePaid == was.finePaid && now.bookId == was.bookId && now.readerId == was.readerId
  {
    if loanId in t.rows then
      Table(t.rows[loanId := t.rows[loanId].(dueDate := newDueDate, renewals := t.rows[loanId].renewals + 1)], t.next)
    else
      t
  }

  /** `UPDATE loans SET returned_date=CURDATE(), fine_paid=? WHERE id=?`, with no guard on the loan's state. */
  function Close(t: Table<Loan>, loanId: int, finePaid: real, today: Day): (r: Table<Loan>)
    requires LoansOk(t)
    ensures LoansOk(r) && r.next == t.next && r.rows.Keys == t.rows.Keys
    ensures forall id :: id in t.rows && id != loanId ==> r.rows[id] == t.rows[id]
    ensures loanId !in t.rows ==> r == t
    ensures loanId in t.rows ==>
              var (was, now) := (t.rows[loanId], r.rows[loanId]);
              now.returnedDate == Some(today) && now.finePaid == finePaid
              && now.dueDate == was.dueDate && now.renewals == was.renewals
              && now.borrowedDate == was.borrowedDate && now.bookId == was.bookId && now.readerId == was.readerId
  {
    if loanId in t.rows then
      Table(t.rows[loanId := t.rows[loanId].(returnedDate := Some(today), finePaid := finePaid)], t.next)
    else
      t
  }

  /** A renewal applies to a loan that has already been returned, and it stays returned. */
  lemma RenewAfterClose(t: Table<Loan>, loanId: int, fine: real, today: Day, newDueDate: Day)
    requires LoansOk(t) && loanId in t.rows
    ensures var r := Renew(Close(t, loanId, fine, today), loanId, newDueDate);
            r.rows[loanId].returnedDate == Some(today) && r.rows[loanId].dueDate == newDueDate
            && r.rows[loanId].renewals == t.rows[loanId].renewals + 1
  {
  }

  /** A second return of the same loan overwrites both the return date and the fine of the first. */
  lemma CloseTwice(t: Table<Loan>, loanId: int, fine1: real, day1: Day, fine2: real, day2: Day)
    requires LoansOk(t)
    ensures Close(Close(t, loanId, fine1, day1), loanId, fine2, day2) == Close(t, loanId, fine2, day2)
  {
  }

  /** The loans after renewing `loanId` to each of `dates` in turn. */
  function RenewAll(t: Table<Loan>, loanId: int, dates: seq<Day>): (r: Table<Loan>)
    requires LoansOk(t)
    ensures LoansOk(r)
    decreases |dates|
  {
    if dates == [] then t else RenewAll(Renew(t, loanId, dates[0]), loanId, dates[1..])
  }

  /** No renewal limit: n renewals raise the count by n and leave the last date as the due date. */
  lemma {:induction false} RenewAllCounts(t: Table<Loan>, loanId: int, dates: seq<Day>)
    requires LoansOk(t) && loanId in t.rows && dates != []
    ensures loanId in RenewAll(t, loanId, dates).rows
    ensures RenewAll(t, loanId, dates).rows[loanId].renewals == t.rows[loanId].renewals + |dates|
    ensures RenewAll(t, loanId, dates).rows[loanId].dueDate == dates[|dates| - 1]
    ensures RenewAll(t, loanId, dates).rows[loanId].borrowedDate == t.rows[loanId].borrowedDate
    decreases |dates|
  {
    var t1 := Renew(t, loanId, dates[0]);
    if |dates| > 1 {
      RenewAllCounts(t1, loanId, dates[1..]);
    }
  }
}
