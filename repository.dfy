/**
 * The repository: one object holding the five tables. Each write method runs
 * one statement (see module Tables); each read method builds its result list
 * row by row (see module Listings). `CURDATE()` is the parameter `today`.
 */
module Repository {
  import opened Records
  import opened Tables
  import opened Listings

  class LibraryRepository {
    var books: Table<Book>
    var readers: Table<Reader>
    var loans: Table<Loan>
    var categories: Table<string>
    var publishers: Table<string>

    /** Ids come from the counters, rows carry their ids, and the unique keys are unique. */
    ghost predicate Valid()
      reads this
    {
      BooksOk(books) && ReadersOk(readers) && LoansOk(loans) && NamesOk(categories) && NamesOk(publishers)
    }

    /** A repository over the configured database, whatever its tables already hold. */
    constructor (books: Table<Book>, readers: Table<Reader>, loans: Table<Loan>,
                 categories: Table<string>, publishers: Table<string>)
      requires BooksOk(books) && ReadersOk(readers) && LoansOk(loans) && NamesOk(categories) && NamesOk(publishers)
      ensures Valid()
      ensures this.books == books && this.readers == readers && this.loans == loans
      ensures this.categories == categories && this.publishers == publishers
    {
      this.books := books;
      this.readers := readers;
      this.loans := loans;
      this.categories := categories;
      this.publishers := publishers;
    }

    // ------------------------------------------------------------ writes

    method InsertBook(book: Book)
      requires Valid()
      modifies this`books
      ensures Valid()
      ensures books == UpsertBook(old(books), book)
    {
      books := UpsertBook(books, book);
    }

    method InsertReader(reader: Reader)
      requires Valid()
      modifies this`readers
      ensures Valid()
      ensures readers == UpsertReader(old(readers), reader)
    {
      readers := UpsertReader(readers, reader);
    }

    method BorrowBook(readerId: int, bookId: int, dueDate: Day, today: Day)
      requires Valid()
      modifies this`loans
      ensures Valid()
      ensures loans == Borrow(old(loans), readerId, bookId, dueDate, today)
    {
      loans := Borrow(loans, readerId, bookId, dueDate, today);
    }

    method RenewLoan(loanId: int, newDueDate: Day)
      requires Valid()
      modifies this`loans
      ensures Valid()
      ensures loans == Renew(old(loans), loanId, newDueDate)
    {
      loans := Renew(loans, loanId, newDueDate);
    }

    method ReturnBook(loanId: int, finePaid: real, today: Day)
      requires Valid()
      modifies this`loans
      ensures Valid()
      ensures loans == Close(old(loans), loanId, finePaid, today)
    {
      loans := Close(loans, loanId, finePaid, today);
    }

    method UpsertCategory(name: string) returns (id: int)
      requires Valid()
      modifies this`categories
      ensures Valid()
      ensures id in categories.rows && categories.rows[id] == name
      ensures (id, categories) == UpsertName(old(categories), name)
    {
      var (found, table) := UpsertName(categories, name);
      id, categories := found, table;
    }

    method UpsertPublisher(name: string) returns (id: int)
      requires Valid()
      modifies this`publishers
      ensures Valid()
      ensures id in publishers.rows && publishers.rows[id] == name
      ensures (id, publishers) == UpsertName(old(publishers), name)
    {
      var (found, table) := UpsertName(publishers, name);
      id, publishers := found, table;
    }

    // ------------------------------------------------------------- reads

    method FindLoansByReader(readerId: int) returns (r: seq<Loan>)
      requires Valid()
      ensures IsLoansOfReader(loans, readerId, r)
    {
      r := [];
      var id := loans.next - 1;
      while id > 0
        invariant 0 <= id < loans.next
        invariant forall i :: 0 <= i < |r| ==>
                    id < r[i].id && r[i].id in loans.rows && loans.rows[r[i].id] == r[i] && r[i].readerId == readerId
        invariant forall k :: id < k && k in loans.rows && loans.rows[k].readerId == readerId ==>
                    exists i :: 0 <= i < |r| && r[i].id == k
        invariant forall i, j :: 0 <= i < j < |r| ==> r[i].id > r[j].id
      {
        if id in loans.rows && loans.rows[id].readerId == readerId {
          var r' := r + [loans.rows[id]];
          assert forall i :: 0 <= i < |r| ==> r'[i] == r[i];
          assert r'[|r|].id == id;
          r := r';
        }
        id := id - 1;
      }
    }

    method ListCategories() returns (r: seq<Category>)
      requires Valid()
      ensures IsNameListing(categories, r, CategoryRowId, CategoryName)
    {
      r := [];
      var id := categories.next - 1;
      while id > 0
        invariant 0 <= id < categories.next
        invariant forall i :: 0 <= i < |r| ==>
                    id < r[i].id && r[i].id in categories.rows && categories.rows[r[i].id] == r[i].name
        invariant forall k :: id < k && k in categories.rows ==> exists i :: 0 <= i < |r| && r[i].id == k
        invariant forall i, j :: 0 <= i < j < |r| ==> r[i].id > r[j].id
      {
        if id in categories.rows {
          var r' := r + [Category(id, categories.rows[id])];
          assert forall i :: 0 <= i < |r| ==> r'[i] == r[i];
          assert r'[|r|].id == id;
          r := r';
        }
        id := id - 1;
      }
    }

    method ListPublishers() returns (r: seq<Publisher>)
      requires Valid()
      ensures IsNameListing(publishers, r, PublisherRowId, PublisherName)
    {
      r := [];
      var id := publishers.next - 1;
      while id > 0
        invariant 0 <= id < publishers.next
        invariant forall i :: 0 <= i < |r| ==>
                    id < r[i].id && r[i].id in publishers.rows && publishers.rows[r[i].id] == r[i].name
        invariant forall k :: id < k && k in publishers.rows ==> exists i :: 0 <= i < |r| && r[i].id == k
        invariant forall i, j :: 0 <= i < j < |r| ==> r[i].id > r[j].id
      {
        if id in publishers.rows {
          var r' := r + [Publisher(id, publishers.rows[id])];
          assert forall i :: 0 <= i < |r| ==> r'[i] == r[i];
          assert r'[|r|].id == id;
          r := r';
        }
        id := id - 1;
      }
    }

    method ListBooks() returns (r: seq<BookDetail>)
      requires Valid()
      ensures IsBookListing(books, categories, publishers, r)
    {
      r := [];
      var id := books.next - 1;
      while id > 0
        invariant 0 <= id < books.next
        invariant forall i :: 0 <= i < |r| ==>
                    id < r[i].id && BookJoins(books, categories, publishers, r[i].id)
                    && r[i] == BookDetailOf(books, categories, publishers, r[i].id)
        invariant forall k :: id < k && BookJoins(books, categories, publishers, k) ==>
                    exists i :: 0 <= i < |r| && r[i].id == k
        invariant forall i, j :: 0 <= i < j < |r| ==> r[i].id > r[j].id
      {
        if BookJoins(books, categories, publishers, id) {
          var r' := r + [BookDetailOf(books, categories, publishers, id)];
          assert forall i :: 0 <= i < |r| ==> r'[i] == r[i];
          assert r'[|r|].id == id;
          r := r';
        }
        id := id - 1;
      }
    }

    method ListReaders() returns (r: seq<Reader>)
      requires Valid()
      ensures IsReaderListing(readers, r)
    {
      r := [];
      var id := readers.next - 1;
      while id > 0
        invariant 0 <= id < readers.next
        invariant forall i :: 0 <= i < |r| ==>
                    id < r[i].id && r[i].id in readers.rows && readers.rows[r[i].id] == r[i]
        invariant forall k :: id < k && k in readers.rows ==> exists i :: 0 <= i < |r| && r[i].id == k
        invariant forall i, j :: 0 <= i < j < |r| ==> r[i].id > r[j].id
      {
        if id in readers.rows {
          var r' := r + [readers.rows[id]];
          assert forall i :: 0 <= i < |r| ==> r'[i] == r[i];
          assert r'[|r|].id == id;
          r := r';
        }
        id := id - 1;
      }
    }

    method ListLoanDetails() returns (r: seq<LoanDetail>)
      requires Valid()
      ensures IsLoanDetailListing(loans, books, readers, r)
    {
      r := [];
      var id := loans.next - 1;
      while id > 0
        invariant 0 <= id < loans.next
        invariant forall i :: 0 <= i < |r| ==>
                    id < r[i].id && LoanJoins(loans, books, readers, r[i].id)
                    && r[i] == LoanDetailOf(loans, books, readers, r[i].id)
        invariant forall k :: id < k && LoanJoins(loans, books, readers, k) ==>
                    exists i :: 0 <= i < |r| && r[i].id == k
        invariant ByRecency(r)
      {
        if LoanJoins(loans, books, readers, id) {
          var d := LoanDetailOf(loans, books, readers, id);
          var r' := InsertByRecency(r, d);
          forall i | 0 <= i < |r'|
            ensures id - 1 < r'[i].id && LoanJoins(loans, books, readers, r'[i].id)
                    && r'[i] == LoanDetailOf(loans, books, readers, r'[i].id)
          {
            assert r'[i] in r || r'[i] == d;
          }
          forall k | id - 1 < k && LoanJoins(loans, books, readers, k)
            ensures exists i :: 0 <= i < |r'| && r'[i].id == k
          {
            if k == id {
              assert d in r';
            } else {
              var i :| 0 <= i < |r| && r[i].id == k;
              assert r[i] in r';
            }
          }
          r := r';
        }
        id := id - 1;
      }
    }
  }
}
