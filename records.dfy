/**
 * The value records of the library (the `model` package): one datatype per
 * record. Dates are day numbers, money amounts are reals, `long`/`int`
 * columns are unbounded integers, and a nullable date is an `Option<Day>`.
 */
module Records {

  /** A calendar date as a day number; the difference of two is the number of whole days between them. */
  type Day = int

  datatype Option<T> = None | Some(value: T)

  /** The outcome of an operation that may throw: its value, or the message of the exception. */
  datatype Result<T, E> = Ok(value: T) | Err(error: E)

  datatype Book = Book(
    id: int,
    isbn: string,
    title: string,
    categoryId: int,
    publisherId: int,
    publishedDate: Option<Day>,
    totalCopies: int,
    availableCopies: int)

  /** A book joined with the names of its category and publisher. */
  datatype BookDetail = BookDetail(
    id: int,
    isbn: string,
    title: string,
    categoryId: int,
    categoryName: string,
    publisherId: int,
    publisherName: string,
    publishedDate: Option<Day>,
    totalCopies: int,
    availableCopies: int)

  datatype Category = Category(id: int, name: string)

  datatype Publisher = Publisher(id: int, name: string)

  datatype Reader = Reader(
    id: int,
    name: string,
    cardNumber: string,
    cardExpiry: Day,
    outstandingFine: real)

  /** A loan is open while `returnedDate` is `None`. */
  datatype Loan = Loan(
    id: int,
    bookId: int,
    readerId: int,
    borrowedDate: Day,
    dueDate: Day,
    returnedDate: Option<Day>,
    renewals: int,
    finePaid: real)

  /** A loan joined with its book's title and its reader's name. */
  datatype LoanDetail = LoanDetail(
    id: int,
    bookId: int,
    bookTitle: string,
    readerId: int,
    readerName: string,
    borrowedDate: Day,
    dueDate: Day,
    returnedDate: Option<Day>,
    renewals: int,
    finePaid: real)

  // Column accessors, passed as key functions to the table operations.
  function BookRowId(b: Book): int { b.id }
  function BookIsbn(b: Book): string { b.isbn }
  function ReaderRowId(r: Reader): int { r.id }
  function ReaderCard(r: Reader): string { r.cardNumber }
  function LoanRowId(l: Loan): int { l.id }
  function CategoryRowId(c: Category): int { c.id }
  function CategoryName(c: Category): string { c.name }
  function PublisherRowId(p: Publisher): int { p.id }
  function PublisherName(p: Publisher): string { p.name }
  function LoanDetailRowId(d: LoanDetail): int { d.id }
  /** The key of a name-only lookup table (categories, publishers): the name itself. */
  function NameKey(name: string): string { name }
}
