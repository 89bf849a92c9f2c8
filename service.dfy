/**
 * The loan service: the overdue-fine rule and the borrow / renew / return
 * operations, which forward to the repository. The service checks nothing
 * itself: no availability check on borrowing, no renewal limit, and no check
 * of the loan's state on renewal or return.
 */
module Service {
  import opened Records
  import opened Tables
  import opened Listings
  import opened Repository

  /**
   * `calculateFine`: nothing unless the book comes back strictly after its due
   * date; otherwise the whole days overdue times the daily rate.
   */
  function Fine(dailyFine: real, dueDate: Day, returnedDate: Day): (fine: real)
    ensures returnedDate <= dueDate ==> fine == 0.0
    ensures dailyFine >= 0.0 ==> fine >= 0.0
  {
    if returnedDate > dueDate then (returnedDate - dueDate) as real * dailyFine else 0.0
  }

  /** On time, including on the due date itself, costs nothing, whatever the rate. */
  lemma FineZeroUnlessLate(dailyFine: real, dueDate: Day, returnedDate: Day)
    requires returnedDate <= dueDate
    ensures Fine(dailyFine, dueDate, returnedDate) == 0.0
  {
  }

  /** Late costs exactly the days overdue times the rate, with no grace period and no cap. */
  lemma FineWhenLate(dailyFine: real, dueDate: Day, returnedDate: Day)
    requires returnedDate > dueDate
    ensures Fine(dailyFine, dueDate, returnedDate) == (returnedDate - dueDate) as real * dailyFine
  {
  }

  /** With a positive rate, a fine is charged exactly when the return is late. */
  lemma FinePositiveIffLate(dailyFine: real, dueDate: Day, returnedDate: Day)
    requires dailyFine > 0.0
    ensures Fine(dailyFine, dueDate, returnedDate) > 0.0 <==> returnedDate > dueDate
  {
    if returnedDate > dueDate {
      assert (returnedDate - dueDate) as real >= 1.0;
    }
  }

  /** With a non-negative rate the fine is never negative and never falls as the return date moves later. */
  lemma FineMonotone(dailyFine: real, dueDate: Day, earlier: Day, later: Day)
    requires dailyFine >= 0.0 && earlier <= later
    ensures 0.0 <= Fine(dailyFine, dueDate, earlier) <= Fine(dailyFine, dueDate, later)
  {
    if later > dueDate {
      var d1 := if earlier > dueDate then (earlier - dueDate) as real else 0.0;
      var d2 := (later - dueDate) as real;
      assert 0.0 <= d1 <= d2;
      assert d1 * dailyFine <= d2 * dailyFine;
    }
  }

  /** The demonstration script: rate 1.5, due in 60 days, returned in 65, a fine of 7.5; returned on the due date, none. */
  lemma FineExamples(today: Day)
    ensures Fine(1.5, today + 60, today + 65) == 7.5
    ensures Fine(1.5, 0, 5) == 7.5
    ensures Fine(1.5, 10, 10) == 0.0
  {
  }

  /** Borrowing and then returning on the due date leaves a fine of 0 on the new loan. */
  lemma BorrowThenReturnOnDueDate(t: Table<Loan>, dailyFine: real, readerId: int, bookId: int, dueDate: Day,
                                  today: Day, returnDay: Day)
    requires LoansOk(t)
    ensures var borrowed := Borrow(t, readerId, bookId, dueDate, today);
            var closed := Close(borrowed, t.next, Fine(dailyFine, dueDate, dueDate), returnDay);
            closed.rows[t.next].finePaid == 0.0 && closed.rows[t.next].returnedDate == Some(returnDay)
  {
  }

  /**
   * The stored return date is the day of the update, not the return date the
   * fine was computed from, and the stored due date plays no part in the fine:
   * with the loan stored as due on day 10 and returned on day 15 at rate 1.5,
   * a caller who passes day 20 as the due date closes it with a fine of 0, and
   * a return keyed on day 15 but carried out on day 30 records day 30.
   */
  lemma ReturnUsesCallerDates(t: Table<Loan>, loanId: int)
    requires LoansOk(t) && loanId in t.rows && t.rows[loanId].dueDate == 10
    ensures var closed := Close(t, loanId, Fine(1.5, 20, 15), 30).rows[loanId];
            closed.finePaid == 0.0 && closed.dueDate == 10 && closed.returnedDate == Some(30)
            && Fine(1.5, closed.dueDate, 15) == 7.5
  {
  }

  /**
   * The demonstration script on an empty database: a loan due in 30 days,
   * renewed to 60 days and returned on day 65 is loan 1, renewed once and
   * closed with a fine of 7.5.
   */
  lemma DemoScript(today: Day)
    ensures var loans0 := Borrow(Table(map[], 1), 1, 1, today + 30, today);
            var loans1 := Renew(loans0, 1, today + 60);
            var loans2 := Close(loans1, 1, Fine(1.5, today + 60, today + 65), today);
            && loans2.rows.Keys == {1}
            && loans2.rows[1] == Loan(1, 1, 1, today, today + 60, Some(today), 1, 7.5)
  {
  }

  class LibraryService {
    const repository: LibraryRepository
    const dailyFine: real

    constructor (repository: LibraryRepository, dailyFine: real)
      ensures this.repository == repository && this.dailyFine == dailyFine
    {
      this.repository := repository;
      this.dailyFine := dailyFine;
    }

    method AddBook(book: Book)
      requires repository.Valid()
      modifies repository`books
      ensures repository.Valid()
      ensures repository.books == UpsertBook(old(repository.books), book)
    {
      repository.InsertBook(book);
    }

    method AddReader(reader: Reader)
      requires repository.Valid()
      modifies repository`readers
      ensures repository.Valid()
      ensures repository.readers == UpsertReader(old(repository.readers), reader)
    {
      repository.InsertReader(reader);
    }

    /** Forwards unchanged: no availability check. */
    method BorrowBook(readerId: int, bookId: int, dueDate: Day, today: Day)
      requires repository.Valid()
      modifies repository`loans
      ensures repository.Valid()
      ensures repository.loans == Borrow(old(repository.loans), readerId, bookId, dueDate, today)
    {
      repository.BorrowBook(readerId, bookId, dueDate, today);
    }

    /** Forwards unchanged: no renewal limit. */
    method RenewLoan(loanId: int, newDueDate: Day)
      requires repository.Valid()
      modifies repository`loans
      ensures repository.Valid()
      ensures repository.loans == Renew(old(repository.loans), loanId, newDueDate)
    {
      repository.RenewLoan(loanId, newDueDate);
    }

    /**
     * Computes the fine from the dates the caller gives, stores it against the
     * loan (with today as its return date) and returns the same amount, also
     * when no loan has that id.
     */
    method ReturnBook(loanId: int, dueDate: Day, returnedDate: Day, today: Day) returns (fine: real)
      requires repository.Valid()
      modifies repository`loans
      ensures repository.Valid()
      ensures fine == Fine(dailyFine, dueDate, returnedDate)
      ensures repository.loans == Close(old(repository.loans), loanId, fine, today)
      ensures loanId in repository.loans.rows ==> repository.loans.rows[loanId].finePaid == fine
    {
      fine := Fine(dailyFine, dueDate, returnedDate);
      repository.ReturnBook(loanId, fine, today);
    }

    method SaveCategory(name: string) returns (id: int)
      requires repository.Valid()
      modifies repository`categories
      ensures repository.Valid()
      ensures (id, repository.categories) == UpsertName(old(repository.categories), name)
    {
      id := repository.UpsertCategory(name);
    }

    method SavePublisher(name: string) returns (id: int)
      requires repository.Valid()
      modifies repository`publishers
      ensures repository.Valid()
      ensures (id, repository.publishers) == UpsertName(old(repository.publishers), name)
    {
      id := repository.UpsertPublisher(name);
    }

    method FindLoansByReader(readerId: int) returns (r: seq<Loan>)
      requires repository.Valid()
      ensures IsLoansOfReader(repository.loans, readerId, r)
    {
      r := repository.FindLoansByReader(readerId);
    }

    method ListCategories() returns (r: seq<Category>)
      requires repository.Valid()
      ensures IsNameListing(repository.categories, r, CategoryRowId, CategoryName)
    {
      r := repository.ListCategories();
    }

    method ListPublishers() returns (r: seq<Publisher>)
      requires repository.Valid()
      ensures IsNameListing(repository.publishers, r, PublisherRowId, PublisherName)
    {
      r := repository.ListPublishers();
    }

    method ListBooks() returns (r: seq<BookDetail>)
      requires repository.Valid()
      ensures IsBookListing(repository.books, repository.categories, repository.publishers, r)
    {
      r := repository.ListBooks();
    }

    method ListReaders() returns (r: seq<Reader>)
      requires repository.Valid()
      ensures IsReaderListing(repository.readers, r)
    {
      r := repository.ListReaders();
    }

    method ListLoanDetails() returns (r: seq<LoanDetail>)
      requires repository.Valid()
      ensures IsLoanDetailListing(repository.loans, repository.books, repository.readers, r)
    {
      r := repository.ListLoanDetails();
    }
  }
}
