/**
 * The desktop form's logic: the checks each listener runs before it writes,
 * the "borrowable" filter behind the borrow combo, the lookup of the loan to
 * return, and the selection of a category or publisher by id. Widgets are
 * not modelled; a combo box is its list of items and its selected index, and
 * what the user typed or picked arrives as parameters. `LocalDate.parse` is
 * library code: its outcome on the trimmed text is a parameter.
 */
module Frame {
  import opened Records
  import opened Tables
  import opened Listings
  import opened Repository
  import opened Service
  import opened JavaText

  const IsbnOrTitleEmpty: string := "ISBN 和书名不能为空"
  const NoCategoryOrPublisher: string := "请选择分类和出版社"
  const AvailableAboveTotal: string := "在册数不能大于总册数"
  const NameOrCardEmpty: string := "姓名和借阅证号不能为空"
  const NoReaderOrBook: string := "请选择读者和可借阅的图书"
  const LoanNotFound: string := "未找到对应的借阅记录"
  const CategoryNameEmpty: string := "请输入分类名称"
  const PublisherNameEmpty: string := "请输入出版社名称"
  const LoanIdLabel: string := "借阅ID"
  const BadFormatSuffix: string := "格式不正确"

  // ------------------------------------------------------ parseLongField

  /** `parseLongField`: the trimmed text as a `long`, or an error naming the field. */
  function ParseLongField(value: string, fieldName: string): (r: Result<int, string>)
    ensures r.Ok? <==> ParseLong(Trim(value)).Some?
    ensures r.Ok? ==> ParseLong(Trim(value)) == Some(r.value) && LongMin <= r.value <= LongMax
    ensures r.Err? ==> r.error == fieldName + BadFormatSuffix
  {
    match ParseLong(Trim(value))
    case Some(v) => Ok(v)
    case None => Err(fieldName + BadFormatSuffix)
  }

  /** Any `long` typed in decimal is read back as itself. */
  lemma ParseLongFieldDecimal(n: int, fieldName: string)
    requires LongMin <= n <= LongMax
    ensures ParseLongField(Decimal(n), fieldName) == Ok(n)
  {
    TrimDecimal(n);
    ParseDecimal(n, LongMin, LongMax);
  }

  // ------------------------------------------------------------ save book

  /**
   * The save-book listener's checks, in their order, and the book it hands to
   * the service (id 0: the database assigns ids).
   */
  function BookForm(isbnText: string, titleText: string, category: Option<Category>, publisher: Option<Publisher>,
                    publishedText: string, publishedParse: Result<Day, string>,
                    totalText: string, availableText: string): (r: Result<Book, string>)
    ensures Trim(isbnText) == [] || Trim(titleText) == [] ==> r == Err(IsbnOrTitleEmpty)
    ensures Trim(isbnText) != [] && Trim(titleText) != [] && (category.None? || publisher.None?) ==>
              r == Err(NoCategoryOrPublisher)
    ensures Trim(isbnText) != [] && Trim(titleText) != [] && category.Some? && publisher.Some?
            && !IsBlank(publishedText) && publishedParse.Err? ==>
              r == Err(publishedParse.error)
    ensures Trim(isbnText) != [] && Trim(titleText) != [] && category.Some? && publisher.Some?
            && (IsBlank(publishedText) || publishedParse.Ok?)
            && ParseInt(Trim(totalText)).None? ==>
              r == Err(NumberFormatMessage(Trim(totalText)))
    ensures Trim(isbnText) != [] && Trim(titleText) != [] && category.Some? && publisher.Some?
            && (IsBlank(publishedText) || publishedParse.Ok?)
            && ParseInt(Trim(totalText)).Some?
            && !IsBlank(availableText) && ParseInt(Trim(availableText)).None? ==>
              r == Err(NumberFormatMessage(Trim(availableText)))
    ensures Trim(isbnText) != [] && Trim(titleText) != [] && category.Some? && publisher.Some?
            && (IsBlank(publishedText) || publishedParse.Ok?)
            && ParseInt(Trim(totalText)).Some?
            && !IsBlank(availableText) && ParseInt(Trim(availableText)).Some?
            && ParseInt(Trim(availableText)).value > ParseInt(Trim(totalText)).value ==>
              r == Err(AvailableAboveTotal)
    ensures Trim(isbnText) != [] && Trim(titleText) != [] && category.Some? && publisher.Some?
            && (IsBlank(publishedText) || publishedParse.Ok?)
            && ParseInt(Trim(totalText)).Some?
            && (IsBlank(availableText) || (ParseInt(Trim(availableText)).Some?
                                           && ParseInt(Trim(availableText)).value <= ParseInt(Trim(totalText)).value))
            ==> r.Ok?
    ensures r.Ok? ==>
              && category.Some? && publisher.Some?
              && r.value.isbn == Trim(isbnText) && r.value.isbn != []
              && r.value.title == Trim(titleText) && r.value.title != []
              && r.value.categoryId == category.value.id && r.value.publisherId == publisher.value.id
              && ParseInt(Trim(totalText)) == Some(r.value.totalCopies)
              && IntMin <= r.value.availableCopies <= r.value.totalCopies <= IntMax
              && (IsBlank(availableText) ==> r.value.availableCopies == r.value.totalCopies)
              && (!IsBlank(availableText) ==> ParseInt(Trim(availableText)) == Some(r.value.availableCopies))
              && (IsBlank(publishedText) <==> r.value.publishedDate.None?)
              && (!IsBlank(publishedText) ==> publishedParse == Ok(r.value.publishedDate.value))
  {
    var isbn := Trim(isbnText);
    var title := Trim(titleText);
    if isbn == [] || title == [] then Err(IsbnOrTitleEmpty)
    else if category.None? || publisher.None? then Err(NoCategoryOrPublisher)
    else if !IsBlank(publishedText) && publishedParse.Err? then Err(publishedParse.error)
    else
      var published := if IsBlank(publishedText) then None else Some(publishedParse.value);
      match ParseIntOrThrow(Trim(totalText))
      case Err(e) => Err(e)
      case Ok(total) =>
        var available := if IsBlank(availableText) then Ok(total) else ParseIntOrThrow(Trim(availableText));
        match available
        case Err(e) => Err(e)
        case Ok(avail) =>
          if avail > total then Err(AvailableAboveTotal)
          else Ok(Book(0, isbn, title, category.value.id, publisher.value.id, published, total, avail))
  }

  /**
   * More available than total copies is refused, whatever else the form holds,
   * and once the earlier checks pass it is refused with its own message.
   */
  lemma BookFormRefusesExcess(isbnText: string, titleText: string, category: Option<Category>,
                              publisher: Option<Publisher>, publishedText: string,
                              publishedParse: Result<Day, string>, totalText: string, availableText: string)
    requires ParseInt(Trim(totalText)).Some? && !IsBlank(availableText) && ParseInt(Trim(availableText)).Some?
    requires ParseInt(Trim(availableText)).value > ParseInt(Trim(totalText)).value
    ensures BookForm(isbnText, titleText, category, publisher, publishedText, publishedParse,
                     totalText, availableText).Err?
    ensures Trim(isbnText) != [] && Trim(titleText) != [] && category.Some? && publisher.Some?
            && (IsBlank(publishedText) || publishedParse.Ok?) ==>
              BookForm(isbnText, titleText, category, publisher, publishedText, publishedParse,
                       totalText, availableText) == Err(AvailableAboveTotal)
  {
  }

  /** A form with an ISBN, a title, both lookups chosen, no date, a total and a blank "available" saves all copies as available. */
  lemma BookFormAccepts(isbn: string, title: string, category: Category, publisher: Publisher, total: int,
                        blank: string)
    requires isbn != [] && !Trimmable(isbn[0]) && !Trimmable(isbn[|isbn| - 1])
    requires title != [] && !Trimmable(title[0]) && !Trimmable(title[|title| - 1])
    requires IntMin <= total <= IntMax && IsBlank(blank)
    ensures BookForm(isbn, title, Some(category), Some(publisher), blank, Err(""), Decimal(total), blank)
            == Ok(Book(0, isbn, title, category.id, publisher.id, None, total, total))
  {
    TrimUnpadded(isbn);
    TrimUnpadded(title);
    TrimDecimal(total);
    ParseDecimal(total, IntMin, IntMax);
  }

  // ---------------------------------------------------------- save reader

  /** The save-reader listener: the expiry date is parsed before the name and card are checked; the fine starts at 0. */
  function ReaderForm(nameText: string, cardText: string, expiryParse: Result<Day, string>): (r: Result<Reader, string>)
    ensures expiryParse.Err? ==> r == Err(expiryParse.error)
    ensures expiryParse.Ok? && (Trim(nameText) == [] || Trim(cardText) == []) ==> r == Err(NameOrCardEmpty)
    ensures expiryParse.Ok? && Trim(nameText) != [] && Trim(cardText) != [] ==>
              r == Ok(Reader(0, Trim(nameText), Trim(cardText), expiryParse.value, 0.0))
    ensures r.Ok? ==>
              && r.value.name == Trim(nameText) && r.value.name != []
              && r.value.cardNumber == Trim(cardText) && r.value.cardNumber != []
              && expiryParse == Ok(r.value.cardExpiry) && r.value.outstandingFine == 0.0
  {
    var name := Trim(nameText);
    var card := Trim(cardText);
    match expiryParse
    case Err(e) => Err(e)
    case Ok(expiry) =>
      if name == [] || card == [] then Err(NameOrCardEmpty)
      else Ok(Reader(0, name, card, expiry, 0.0))
  }

  /** A reader form with a name, a card number and a parsed expiry date is accepted as typed, with no fine. */
  lemma ReaderFormAccepts(name: string, card: string, expiry: Day)
    requires name != [] && !Trimmable(name[0]) && !Trimmable(name[|name| - 1])
    requires card != [] && !Trimmable(card[0]) && !Trimmable(card[|card| - 1])
    ensures ReaderForm(name, card, Ok(expiry)) == Ok(Reader(0, name, card, expiry, 0.0))
  {
    TrimUnpadded(name);
    TrimUnpadded(card);
  }

  // ------------------------------------------------------ borrowable books

  /** The borrow combo's items: the cached books with a copy available, in cache order. */
  function Borrowable(books: seq<BookDetail>): (r: seq<BookDetail>)
    ensures |r| <= |books|
    ensures forall b :: b in r <==> b in books && b.availableCopies > 0
  {
    if books == [] then []
    else (if books[0].availableCopies > 0 then [books[0]] else []) + Borrowable(books[1..])
  }

  /** The filter keeps the cache's order: it distributes over concatenation. */
  lemma {:induction false} BorrowableAppend(a: seq<BookDetail>, b: seq<BookDetail>)
    ensures Borrowable(a + b) == Borrowable(a) + Borrowable(b)
  {
    if a == [] {
      assert a + b == b;
    } else {
      var head := if a[0].availableCopies > 0 then [a[0]] else [];
      assert (a + b)[0] == a[0];
      assert (a + b)[1..] == a[1..] + b;
      calc {
        Borrowable(a + b);
        head + Borrowable(a[1..] + b);
        { BorrowableAppend(a[1..], b); }
        head + (Borrowable(a[1..]) + Borrowable(b));
        (head + Borrowable(a[1..])) + Borrowable(b);
        Borrowable(a) + Borrowable(b);
      }
    }
  }

  // --------------------------------------------------- lookups by row id

  /** The first index whose item has the id, as `findFirst` and the selection loops find it. */
  function IndexOfFirst<T>(s: seq<T>, rowId: T -> int, id: int): (r: Option<nat>)
    ensures r.Some? ==> r.value < |s| && rowId(s[r.value]) == id
    ensures r.Some? ==> forall j :: 0 <= j < r.value ==> rowId(s[j]) != id
    ensures r.None? <==> forall j :: 0 <= j < |s| ==> rowId(s[j]) != id
  {
    if s == [] then None
    else if rowId(s[0]) == id then Some(0)
    else match IndexOfFirst(s[1..], rowId, id)
      case None => None
      case Some(k) => Some(k + 1)
  }

  /**
   * The loan the return button acts on: the selected table row when the index
   * is a row of the cache, otherwise the first cached loan with the typed id.
   */
  function ReturnTarget(selectedRow: int, loanCache: seq<LoanDetail>, loanIdText: string): (r: Result<LoanDetail, string>)
    ensures 0 <= selectedRow < |loanCache| ==> r == Ok(loanCache[selectedRow])
    ensures r.Ok? ==> r.value in loanCache
    ensures !(0 <= selectedRow < |loanCache|) ==>
              match ParseLongField(loanIdText, LoanIdLabel)
              case Err(e) => r == Err(e)
              case Ok(id) =>
                && (r.Ok? ==> r.value.id == id && exists k :: 0 <= k < |loanCache| && loanCache[k] == r.value
                                                   && forall j :: 0 <= j < k ==> loanCache[j].id != id)
                && (r.Err? <==> forall j :: 0 <= j < |loanCache| ==> loanCache[j].id != id)
                && (r.Err? ==> r.error == LoanNotFound)
  {
    if 0 <= selectedRow < |loanCache| then Ok(loanCache[selectedRow])
    else match ParseLongField(loanIdText, LoanIdLabel)
      case Err(e) => Err(e)
      case Ok(id) =>
        match IndexOfFirst(loanCache, LoanDetailRowId, id)
        case Some(k) => Ok(loanCache[k])
        case None => Err(LoanNotFound)
  }

  /** With no row selected, typing the id of a cached loan returns the first cached loan with that id. */
  lemma ReturnTargetByTypedId(selectedRow: int, loanCache: seq<LoanDetail>, k: nat)
    requires !(0 <= selectedRow < |loanCache|)
    requires k < |loanCache| && LongMin <= loanCache[k].id <= LongMax
    requires forall j :: 0 <= j < k ==> loanCache[j].id != loanCache[k].id
    ensures ReturnTarget(selectedRow, loanCache, Decimal(loanCache[k].id)) == Ok(loanCache[k])
  {
    ParseLongFieldDecimal(loanCache[k].id, LoanIdLabel);
    var found := IndexOfFirst(loanCache, LoanDetailRowId, loanCache[k].id);
    assert found.Some? by { assert LoanDetailRowId(loanCache[k]) == loanCache[k].id; }
  }

  // ----------------------------------------------------------- the frame

  class LibraryFrame {
    const service: LibraryService
    var categoryItems: seq<Category>
    var categorySelected: int
    var publisherItems: seq<Publisher>
    var publisherSelected: int
    var readerCache: seq<Reader>
    var bookCache: seq<BookDetail>
    var loanCache: seq<LoanDetail>
    /** The items of the borrow combo. */
    var borrowBookItems: seq<BookDetail>

    /** The borrow combo always shows the borrowable part of the book cache; selections are -1 or an item index. */
    ghost predicate Valid()
      reads this, service, service.repository
    {
      && service.repository.Valid()
      && borrowBookItems == Borrowable(bookCache)
      && -1 <= categorySelected < |categoryItems|
      && -1 <= publisherSelected < |publisherItems|
    }

    /** The frame's service, at the fixed rate of 1.5 per day; the caches start empty. */
    constructor (repository: LibraryRepository)
      requires repository.Valid()
      ensures Valid() && service.repository == repository && service.dailyFine == 1.5
      ensures categoryItems == [] && publisherItems == [] && readerCache == [] && bookCache == [] && loanCache == []
    {
      service := new LibraryService(repository, 1.5);
      categoryItems, categorySelected := [], -1;
      publisherItems, publisherSelected := [], -1;
      readerCache, bookCache, loanCache, borrowBookItems := [], [], [], [];
    }

    // ----------------------------------------------------------- reloads

    /** The category and publisher combos, the reader cache and the book cache hold the current listings. */
    ghost predicate LookupsReloaded()
      reads this, service, service.repository
    {
      && IsNameListing(service.repository.categories, categoryItems, CategoryRowId, CategoryName)
      && IsNameListing(service.repository.publishers, publisherItems, PublisherRowId, PublisherName)
      && IsReaderListing(service.repository.readers, readerCache)
      && BooksReloaded()
    }

    /** The book cache holds the current book listing. */
    ghost predicate BooksReloaded()
      reads this, service, service.repository
    {
      IsBookListing(service.repository.books, service.repository.categories, service.repository.publishers, bookCache)
    }

    /** The loan cache holds the current loan detail listing. */
    ghost predicate LoansReloaded()
      reads this, service, service.repository
    {
      IsLoanDetailListing(service.repository.loans, service.repository.books, service.repository.readers, loanCache)
    }

    /** `reloadLookups`: a combo whose model is replaced selects its first item, if any. */
    method ReloadLookups()
      requires Valid()
      modifies this
      ensures Valid() && unchanged(service.repository)
      ensures IsNameListing(service.repository.categories, categoryItems, CategoryRowId, CategoryName)
      ensures IsNameListing(service.repository.publishers, publisherItems, PublisherRowId, PublisherName)
      ensures IsReaderListing(service.repository.readers, readerCache)
      ensures IsBookListing(service.repository.books, service.repository.categories, service.repository.publishers, bookCache)
      ensures categorySelected == (if categoryItems == [] then -1 else 0)
      ensures publisherSelected == (if publisherItems == [] then -1 else 0)
      ensures loanCache == old(loanCache)
    {
      categoryItems := service.ListCategories();
      publisherItems := service.ListPublishers();
      readerCache := service.ListReaders();
      bookCache := service.ListBooks();
      categorySelected := if categoryItems == [] then -1 else 0;
      publisherSelected := if publisherItems == [] then -1 else 0;
      borrowBookItems := Borrowable(bookCache);
    }

    method ReloadBooks()
      requires Valid()
      modifies this`bookCache, this`borrowBookItems
      ensures Valid()
      ensures IsBookListing(service.repository.books, service.repository.categories, service.repository.publishers, bookCache)
    {
      bookCache := service.ListBooks();
      borrowBookItems := Borrowable(bookCache);
    }

    method ReloadReaders()
      requires Valid()
      modifies this`readerCache
      ensures Valid()
      ensures IsReaderListing(service.repository.readers, readerCache)
    {
      readerCache := service.ListReaders();
    }

    method ReloadLoans()
      requires Valid()
      modifies this`loanCache
      ensures Valid()
      ensures IsLoanDetailListing(service.repository.loans, service.repository.books, service.repository.readers, loanCache)
    {
      loanCache := service.ListLoanDetails();
    }

    // ------------------------------------------------------- selections

    /** `selectCategory`: select the first item with the id; with no such item the selection stays. */
    method SelectCategory(id: int)
      requires Valid()
      modifies this`categorySelected
      ensures Valid()
      ensures categorySelected ==
                match IndexOfFirst(categoryItems, CategoryRowId, id)
                case Some(k) => k
                case None => old(categorySelected)
    {
      var i := 0;
      while i < |categoryItems|
        invariant 0 <= i <= |categoryItems|
        invariant forall j :: 0 <= j < i ==> categoryItems[j].id != id
        invariant categorySelected == old(categorySelected)
      {
        if categoryItems[i].id == id {
          categorySelected := i;
          return;
        }
        i := i + 1;
      }
    }

    /** `selectPublisher`: select the first item with the id; with no such item the selection stays. */
    method SelectPublisher(id: int)
      requires Valid()
      modifies this`publisherSelected
      ensures Valid()
      ensures publisherSelected ==
                match IndexOfFirst(publisherItems, PublisherRowId, id)
                case Some(k) => k
                case None => old(publisherSelected)
    {
      var i := 0;
      while i < |publisherItems|
        invariant 0 <= i <= |publisherItems|
        invariant forall j :: 0 <= j < i ==> publisherItems[j].id != id
        invariant publisherSelected == old(publisherSelected)
      {
        if publisherItems[i].id == id {
          publisherSelected := i;
          return;
        }
        i := i + 1;
      }
    }

    // -------------------------------------------------------- listeners

    /** The add-category button: a blank name writes nothing; a saved category ends up selected. */
    method AddCategory(nameText: string) returns (outcome: Result<int, string>)
      requires Valid()
      modifies this, service.repository`categories
      ensures Valid()
      ensures Trim(nameText) == [] ==> outcome == Err(CategoryNameEmpty) && unchanged(this) && unchanged(service.repository)
      ensures Trim(nameText) != [] ==>
                && outcome.Ok?
                && (outcome.value, service.repository.categories) == UpsertName(old(service.repository.categories), Trim(nameText))
                && 0 <= categorySelected < |categoryItems|
                && categoryItems[categorySelected] == Category(outcome.value, Trim(nameText))
                && LookupsReloaded() && publisherSelected == (if publisherItems == [] then -1 else 0)
                && loanCache == old(loanCache)
    {
      var name := Trim(nameText);
      if name == [] {
        return Err(CategoryNameEmpty);
      }
      var id := service.SaveCategory(name);
      ReloadLookups();
      SelectCategory(id);
      var k := IndexOfFirst(categoryItems, CategoryRowId, id);
      assert k.Some? by {
        var i :| 0 <= i < |categoryItems| && CategoryRowId(categoryItems[i]) == id;
      }
      outcome := Ok(id);
    }

    /** The add-publisher button: a blank name writes nothing; a saved publisher ends up selected. */
    method AddPublisher(nameText: string) returns (outcome: Result<int, string>)
      requires Valid()
      modifies this, service.repository`publishers
      ensures Valid()
      ensures Trim(nameText) == [] ==> outcome == Err(PublisherNameEmpty) && unchanged(this) && unchanged(service.repository)
      ensures Trim(nameText) != [] ==>
                && outcome.Ok?
                && (outcome.value, service.repository.publishers) == UpsertName(old(service.repository.publishers), Trim(nameText))
                && 0 <= publisherSelected < |publisherItems|
                && publisherItems[publisherSelected] == Publisher(outcome.value, Trim(nameText))
                && LookupsReloaded() && categorySelected == (if categoryItems == [] then -1 else 0)
                && loanCache == old(loanCache)
    {
      var name := Trim(nameText);
      if name == [] {
        return Err(PublisherNameEmpty);
      }
      var id := service.SavePublisher(name);
      ReloadLookups();
      SelectPublisher(id);
      var k := IndexOfFirst(publisherItems, PublisherRowId, id);
      assert k.Some? by {
        var i :| 0 <= i < |publisherItems| && PublisherRowId(publisherItems[i]) == id;
      }
      outcome := Ok(id);
    }

    /** The save-book button: a form the checks refuse writes nothing; otherwise the book is upserted and the books reloaded. */
    method SaveBook(isbnText: string, titleText: string, category: Option<Category>, publisher: Option<Publisher>,
                    publishedText: string, publishedParse: Result<Day, string>,
                    totalText: string, availableText: string) returns (outcome: Result<Book, string>)
      requires Valid()
      requires category == (if categorySelected < 0 then None else Some(categoryItems[categorySelected]))
      requires publisher == (if publisherSelected < 0 then None else Some(publisherItems[publisherSelected]))
      modifies this`bookCache, this`borrowBookItems, service.repository`books
      ensures Valid()
      ensures outcome == BookForm(isbnText, titleText, category, publisher, publishedText, publishedParse,
                                  totalText, availableText)
      ensures outcome.Err? ==> unchanged(this) && unchanged(service.repository)
      ensures outcome.Ok? ==> service.repository.books == UpsertBook(old(service.repository.books), outcome.value)
      ensures outcome.Ok? ==> BooksReloaded()
    {
      outcome := BookForm(isbnText, titleText, category, publisher, publishedText, publishedParse,
                          totalText, availableText);
      if outcome.Ok? {
        service.AddBook(outcome.value);
        ReloadBooks();
      }
    }

    /** The save-reader button: a form the checks refuse writes nothing; otherwise the reader is upserted with a fine of 0. */
    method SaveReader(nameText: string, cardText: string, expiryParse: Result<Day, string>)
      returns (outcome: Result<Reader, string>)
      requires Valid()
      modifies this, service.repository`readers
      ensures Valid()
      ensures outcome == ReaderForm(nameText, cardText, expiryParse)
      ensures outcome.Err? ==> unchanged(this) && unchanged(service.repository)
      ensures outcome.Ok? ==> service.repository.readers == UpsertReader(old(service.repository.readers), outcome.value)
      ensures outcome.Ok? ==>
                && LookupsReloaded() && loanCache == old(loanCache)
                && categorySelected == (if categoryItems == [] then -1 else 0)
                && publisherSelected == (if publisherItems == [] then -1 else 0)
    {
      outcome := ReaderForm(nameText, cardText, expiryParse);
      if outcome.Ok? {
        service.AddReader(outcome.value);
        ReloadReaders();
        ReloadLookups();
      }
    }

    /**
     * The borrow button. The book comes from the borrow combo, so it had a copy
     * available when the cache was loaded; nothing re-checks it at write time.
     */
    method Borrow(reader: Option<Reader>, book: Option<BookDetail>, dueParse: Result<Day, string>, today: Day)
      returns (outcome: Result<(), string>)
      requires Valid()
      requires reader.Some? ==> reader.value in readerCache
      requires book.Some? ==> book.value in borrowBookItems
      modifies this`loanCache, this`bookCache, this`borrowBookItems, service.repository`loans
      ensures Valid()
      ensures reader.None? || book.None? ==> outcome == Err(NoReaderOrBook) && unchanged(service.repository)
      ensures reader.Some? && book.Some? && dueParse.Err? ==> outcome == Err(dueParse.error) && unchanged(service.repository)
      ensures reader.Some? && book.Some? && dueParse.Ok? ==> outcome.Ok?
      ensures outcome.Err? ==> unchanged(this)
      ensures outcome.Ok? ==> LoansReloaded() && BooksReloaded()
      ensures outcome.Ok? ==>
                && reader.Some? && book.Some? && dueParse.Ok?
                && book.value in old(bookCache) && book.value.availableCopies > 0
                && service.repository.loans ==
                     Tables.Borrow(old(service.repository.loans), reader.value.id, book.value.id, dueParse.value, today)
    {
      if reader.None? || book.None? {
        return Err(NoReaderOrBook);
      }
      if dueParse.Err? {
        return Err(dueParse.error);
      }
      service.BorrowBook(reader.value.id, book.value.id, dueParse.value, today);
      ReloadLoans();
      ReloadBooks();
      outcome := Ok(());
    }

    /** The renew button: the loan id is typed; a bad id or date writes nothing. */
    method Renew(loanIdText: string, dateParse: Result<Day, string>) returns (outcome: Result<(), string>)
      requires Valid()
      modifies this`loanCache, service.repository`loans
      ensures Valid()
      ensures ParseLongField(loanIdText, LoanIdLabel).Err? ==>
                outcome == Err(ParseLongField(loanIdText, LoanIdLabel).error) && unchanged(service.repository)
      ensures ParseLongField(loanIdText, LoanIdLabel).Ok? && dateParse.Err? ==> outcome == Err(dateParse.error)
      ensures ParseLongField(loanIdText, LoanIdLabel).Ok? && dateParse.Ok? ==> outcome.Ok?
      ensures outcome.Err? ==> unchanged(this) && unchanged(service.repository)
      ensures outcome.Ok? ==> LoansReloaded()
      ensures outcome.Ok? ==>
                && ParseLongField(loanIdText, LoanIdLabel).Ok? && dateParse.Ok?
                && service.repository.loans ==
                     Tables.Renew(old(service.repository.loans), ParseLongField(loanIdText, LoanIdLabel).value, dateParse.value)
    {
      var loanId := ParseLongField(loanIdText, LoanIdLabel);
      if loanId.Err? {
        return Err(loanId.error);
      }
      if dateParse.Err? {
        return Err(dateParse.error);
      }
      service.RenewLoan(loanId.value, dateParse.value);
      ReloadLoans();
      outcome := Ok(());
    }

    /**
     * The return button: the fine is computed from the cached due date of the
     * resolved loan and the date typed, and the loan is closed as of today.
     */
    method Return(selectedRow: int, loanIdText: string, returnedParse: Result<Day, string>, today: Day)
      returns (outcome: Result<real, string>)
      requires Valid()
      modifies this`loanCache, this`bookCache, this`borrowBookItems, service.repository`loans
      ensures Valid()
      ensures ReturnTarget(selectedRow, old(loanCache), loanIdText).Err? ==>
                outcome == Err(ReturnTarget(selectedRow, old(loanCache), loanIdText).error) && unchanged(service.repository)
      ensures ReturnTarget(selectedRow, old(loanCache), loanIdText).Ok? && returnedParse.Err? ==>
                outcome == Err(returnedParse.error)
      ensures ReturnTarget(selectedRow, old(loanCache), loanIdText).Ok? && returnedParse.Ok? ==> outcome.Ok?
      ensures outcome.Err? ==> unchanged(this) && unchanged(service.repository)
      ensures outcome.Ok? ==> LoansReloaded() && BooksReloaded()
      ensures outcome.Ok? ==>
                && ReturnTarget(selectedRow, old(loanCache), loanIdText).Ok? && returnedParse.Ok?
                && var target := ReturnTarget(selectedRow, old(loanCache), loanIdText).value;
                   && outcome.value == Fine(service.dailyFine, target.dueDate, returnedParse.value)
                   && service.repository.loans == Close(old(service.repository.loans), target.id, outcome.value, today)
    {
      var target := ReturnTarget(selectedRow, loanCache, loanIdText);
      if target.Err? {
        return Err(target.error);
      }
      if returnedParse.Err? {
        return Err(returnedParse.error);
      }
      var fine := service.ReturnBook(target.value.id, target.value.dueDate, returnedParse.value, today);
      ReloadLoans();
      ReloadBooks();
      outcome := Ok(fine);
    }
  }
}
