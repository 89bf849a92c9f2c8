/**
 * What each SELECT of the repository returns, stated over the tables: which
 * rows (after the joins) and in which order.
 */
module Listings {
  import opened Records
  import opened Tables

  // ---------------------------------------------------------------- books

  /** `books b JOIN categories c ON c.id = b.category_id JOIN publishers p ON p.id = b.publisher_id` keeps book `id`. */
  predicate BookJoins(books: Table<Book>, categories: Table<string>, publishers: Table<string>, id: int) {
    id in books.rows && books.rows[id].categoryId in categories.rows && books.rows[id].publisherId in publishers.rows
  }

  function BookDetailOf(books: Table<Book>, categories: Table<string>, publishers: Table<string>, id: int): BookDetail
    requires BookJoins(books, categories, publishers, id)
  {
    var b := books.rows[id];
    BookDetail(b.id, b.isbn, b.title, b.categoryId, categories.rows[b.categoryId],
               b.publisherId, publishers.rows[b.publisherId], b.publishedDate, b.totalCopies, b.availableCopies)
  }

  /** The result of `listBooks`: every joined book exactly once, `ORDER BY b.id DESC`. */
  ghost predicate IsBookListing(books: Table<Book>, categories: Table<string>, publishers: Table<string>,
                                r: seq<BookDetail>)
  {
    && (forall i :: 0 <= i < |r| ==>
          BookJoins(books, categories, publishers, r[i].id) && r[i] == BookDetailOf(books, categories, publishers, r[i].id))
    && (forall id :: BookJoins(books, categories, publishers, id) ==> exists i :: 0 <= i < |r| && r[i].id == id)
    && (forall i, j :: 0 <= i < j < |r| ==> r[i].id > r[j].id)
  }

  // -------------------------------------------------------------- readers

  /** The result of `listReaders`: every reader exactly once, `ORDER BY id DESC`. */
  ghost predicate IsReaderListing(readers: Table<Reader>, r: seq<Reader>) {
    && (forall i :: 0 <= i < |r| ==> r[i].id in readers.rows && readers.rows[r[i].id] == r[i])
    && (forall id :: id in readers.rows ==> exists i :: 0 <= i < |r| && r[i].id == id)
    && (forall i, j :: 0 <= i < j < |r| ==> r[i].id > r[j].id)
  }

  // --------------------------------------------------- categories, publishers

  /**
   * The result of `listCategories` / `listPublishers`, whose records have the
   * columns `rowId` and `rowName`: every row exactly once. The `ORDER BY name`
   * follows the database's collation and is not stated.
   */
  ghost predicate IsNameListing<V>(names: Table<string>, r: seq<V>, rowId: V -> int, rowName: V -> string) {
    && (forall i :: 0 <= i < |r| ==> rowId(r[i]) in names.rows && names.rows[rowId(r[i])] == rowName(r[i]))
    && (forall id :: id in names.rows ==> exists i :: 0 <= i < |r| && rowId(r[i]) == id)
    && (forall i, j :: 0 <= i < j < |r| ==> rowId(r[i]) != rowId(r[j]))
  }

  // ---------------------------------------------------------------- loans

  /** The result of `findLoansByReader(readerId)`: exactly the loans of that reader, each once. */
  ghost predicate IsLoansOfReader(loans: Table<Loan>, readerId: int, r: seq<Loan>) {
    && (forall i :: 0 <= i < |r| ==> r[i].id in loans.rows && loans.rows[r[i].id] == r[i] && r[i].readerId == readerId)
    && (forall id :: id in loans.rows && loans.rows[id].readerId == readerId ==>
          exists i :: 0 <= i < |r| && r[i].id == id)
    && (forall i, j :: 0 <= i < j < |r| ==> r[i].id != r[j].id)
  }

  /** `loans l JOIN books b ON b.id = l.book_id JOIN readers r ON r.id = l.reader_id` keeps loan `id`. */
  predicate LoanJoins(loans: Table<Loan>, books: Table<Book>, readers: Table<Reader>, id: int) {
    id in loans.rows && loans.rows[id].bookId in books.rows && loans.rows[id].readerId in readers.rows
  }

  function LoanDetailOf(loans: Table<Loan>, books: Table<Book>, readers: Table<Reader>, id: int): LoanDetail
    requires LoanJoins(loans, books, readers, id)
  {
    var l := loans.rows[id];
    LoanDetail(l.id, l.bookId, books.rows[l.bookId].title, l.readerId, readers.rows[l.readerId].name,
               l.borrowedDate, l.dueDate, l.returnedDate, l.renewals, l.finePaid)
  }

  /** `ORDER BY l.borrowed_date DESC, l.id DESC`: `a` comes strictly before `b`. */
  predicate Before(a: LoanDetail, b: LoanDetail) {
    a.borrowedDate > b.borrowedDate || (a.borrowedDate == b.borrowedDate && a.id > b.id)
  }

  ghost predicate ByRecency(r: seq<LoanDetail>) {
    forall i, j :: 0 <= i < j < |r| ==> Before(r[i], r[j])
  }

  /** The result of `listLoanDetails`: every joined loan exactly once, most recently borrowed first. */
  ghost predicate IsLoanDetailListing(loans: Table<Loan>, books: Table<Book>, readers: Table<Reader>,
                                      r: seq<LoanDetail>)
  {
    && (forall i :: 0 <= i < |r| ==>
          LoanJoins(loans, books, readers, r[i].id) && r[i] == LoanDetailOf(loans, books, readers, r[i].id))
    && (forall id :: LoanJoins(loans, books, readers, id) ==> exists i :: 0 <= i < |r| && r[i].id == id)
    && ByRecency(r)
  }

  /** Places `d` in a list kept in `ORDER BY borrowed_date DESC, id DESC` order. */
  function InsertByRecency(r: seq<LoanDetail>, d: LoanDetail): (s: seq<LoanDetail>)
    ensures |s| == |r| + 1
    ensures forall x :: x in s <==> x in r || x == d
    ensures ByRecency(r) && (forall i :: 0 <= i < |r| ==> r[i].id != d.id) ==> ByRecency(s)
  {
    if r == [] then [d]
    else if Before(d, r[0]) then
      assert ByRecency(r) ==> forall j :: 0 < j < |r| ==> Before(r[0], r[j]);
      [d] + r
    else
      var rest := InsertByRecency(r[1..], d);
      assert ByRecency(r) && (forall i :: 0 <= i < |r| ==> r[i].id != d.id) ==> ByRecency([r[0]] + rest) by {
        if ByRecency(r) && (forall i :: 0 <= i < |r| ==> r[i].id != d.id) {
          assert ByRecency(r[1..]);
          forall x | x in rest ensures Before(r[0], x) {
            if x in r[1..] {
              var k :| 0 <= k < |r[1..]| && r[1..][k] == x;
              assert r[k + 1] == x;
            }
          }
          forall i, j | 0 <= i < j < |[r[0]] + rest| ensures Before(([r[0]] + rest)[i], ([r[0]] + rest)[j]) {
            if i == 0 {
              assert ([r[0]] + rest)[j] == rest[j - 1];
              assert rest[j - 1] in rest;
            }
          }
        }
      }
      [r[0]] + rest
  }
}
