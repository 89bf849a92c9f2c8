# School library loan system: a Dafny model

This project models the core of a school library desktop application: a Swing
form over a loan service over a MySQL repository. It covers books, readers,
categories, publishers and loans, and the overdue fine charged on return.

- `records.dfy` (`Records`): the value records (book, book detail, category,
  publisher, reader, loan, loan detail) and the `Option`/`Result` wrappers.
  `Result` stands for "returns a value or throws with this message".
- `tables.dfy` (`Tables`): what each SQL write does to its table. A table is
  a map from id to row plus the next AUTO_INCREMENT id. The unique keys are
  ISBN, card number and category/publisher name. The `ON DUPLICATE KEY UPDATE`
  upserts either update the row holding the key or add a row under the next id.
- `listings.dfy` (`Listings`): what each SELECT returns: which rows survive
  the joins, each exactly once, and in which order.
- `repository.dfy` (`Repository.LibraryRepository`): a class holding the five
  tables. Its write methods assign the new table; its read methods build the
  result row by row in a loop and are proved against the listing predicates.
- `service.dfy` (`Service`): the fine rule `Fine` with its lemmas, and the
  class `LibraryService`, which forwards to the repository.
- `javatext.dfy` (`JavaText`): the Java library behaviour the form relies on:
  `String.trim`, `String.isBlank`, `Integer.parseInt`/`Long.parseLong` in
  radix 10, and the `NumberFormatException` message.
- `frame.dfy` (`Frame`): the form's listeners as the class `LibraryFrame`.
  - A combo box is its item list and its selected index.
  - The listeners' guards are pure functions: `BookForm`, `ReaderForm` and
    `ReturnTarget`.
  - `Borrowable` is the filter behind the borrow combo.
  - `SelectCategory`/`SelectPublisher` are the selection loops.

Representation choices:
- Dates are day numbers (`Day = int`), so `ChronoUnit.DAYS.between` is
  subtraction.
- Money is `real`.
- `CURDATE()` is a `today` parameter.
- What `LocalDate.parse` returns on a field is a `Result<Day, string>`
  parameter.
- `long` and `int` columns are unbounded integers. The text parsers enforce
  the `int` and `long` ranges explicitly.

## Model

| member | source | states |
|---|---|---|
| `Tables.UpsertName` | src/main/java/com/library/repository/LibraryRepository.java:113-141 | The id returned names a row holding the name. A name already present returns its existing row and leaves the rows as they were, but the statement still allocates one AUTO_INCREMENT value, which is lost. A new name is added under the next id. Either way the counter moves on by one. Name uniqueness is kept. |
| `Tables.UpsertNameIsTheRow` | src/main/java/com/library/repository/LibraryRepository.java:113-126 | The id an upsert returns is the only row carrying that name afterwards. |
| `Tables.UpsertNameTwice` | src/main/java/com/library/repository/LibraryRepository.java:128-141 | Saving the same name twice returns the same id and adds no row the second time. The second save only moves the counter on by one. |
| `Tables.UpsertBook` | src/main/java/com/library/repository/LibraryRepository.java:28-44 | The book upsert keeps ids in range, rows carrying their own ids, and ISBNs unique. |
| `Tables.UpsertBookOverwrites` | src/main/java/com/library/repository/LibraryRepository.java:29-32 | On an ISBN already present, the row keeps its id and ISBN. Title, category, publisher, published date, total and available copies are all replaced. No other row changes. One AUTO_INCREMENT value is lost. |
| `Tables.UpsertBookAdds` | src/main/java/com/library/repository/LibraryRepository.java:28-42 | On a new ISBN, exactly one row is added, under the next id. The id of the given book is ignored. |
| `Tables.UpsertReader` | src/main/java/com/library/repository/LibraryRepository.java:46-57 | Card numbers stay unique and no reader disappears. No existing reader's outstanding fine changes. Afterwards some reader has the card number, name and expiry given. |
| `Tables.UpsertReaderKeepsFine` | src/main/java/com/library/repository/LibraryRepository.java:47-48 | On a known card number, only that reader's name and expiry are replaced. The stored outstanding fine is kept, not the one passed in. One AUTO_INCREMENT value is lost. |
| `Tables.UpsertReaderAdds` | src/main/java/com/library/repository/LibraryRepository.java:46-56 | On a new card number, exactly one reader is added under the next id, with the fine given. |
| `Tables.Borrow` | src/main/java/com/library/repository/LibraryRepository.java:59-68 | Exactly one loan is added, under the next id. It is borrowed today, due on the date given, open, with 0 renewals and 0 fine. Every other loan is unchanged. |
| `Tables.Renew` | src/main/java/com/library/repository/LibraryRepository.java:70-78 | The loan gets the new due date and one more renewal. All its other columns and all other loans are unchanged. An unknown id changes nothing. |
| `Tables.Close` | src/main/java/com/library/repository/LibraryRepository.java:80-88 | The loan gets today as its return date and the fine given. All its other columns and all other loans are unchanged. An unknown id changes nothing. |
| `Tables.RenewAfterClose` | src/main/java/com/library/repository/LibraryRepository.java:70-88 | Nothing guards on the loan's state: a returned loan can still be renewed, and it stays returned. |
| `Tables.CloseTwice` | src/main/java/com/library/repository/LibraryRepository.java:80-88 | Returning a loan twice is the same as returning it once with the second call's fine and date. |
| `Tables.RenewAllCounts` | src/main/java/com/library/repository/LibraryRepository.java:71 | There is no renewal limit. After n renewals the count has risen by n, the due date is the last one given, and the borrowed date is unchanged. |
| `Listings.InsertByRecency` | src/main/java/com/library/repository/LibraryRepository.java:217 | Inserting one loan detail keeps the list in `borrowed_date DESC, id DESC` order and adds exactly that element. |
| `Service.Fine` | src/main/java/com/library/service/LibraryService.java:80-86 | `calculateFine` charges nothing for a return on or before the due date. The fine is never negative with a non-negative rate. The late case is `FineWhenLate`. |
| `Repository.LibraryRepository.constructor` | src/main/java/com/library/repository/LibraryRepository.java:24-26 | A repository over whatever the configured database already holds: any five tables meeting the table invariants, kept as given. |
| `Repository.LibraryRepository.InsertBook` | src/main/java/com/library/repository/LibraryRepository.java:28-44 | The book table becomes `UpsertBook` of the old one. The table invariants are kept. |
| `Repository.LibraryRepository.InsertReader` | src/main/java/com/library/repository/LibraryRepository.java:46-57 | The reader table becomes `UpsertReader` of the old one. The table invariants are kept. |
| `Repository.LibraryRepository.BorrowBook` | src/main/java/com/library/repository/LibraryRepository.java:59-68 | The loan table becomes `Borrow` of the old one. |
| `Repository.LibraryRepository.RenewLoan` | src/main/java/com/library/repository/LibraryRepository.java:70-78 | The loan table becomes `Renew` of the old one. |
| `Repository.LibraryRepository.ReturnBook` | src/main/java/com/library/repository/LibraryRepository.java:80-88 | The loan table becomes `Close` of the old one, dated today. |
| `Repository.LibraryRepository.UpsertCategory` | src/main/java/com/library/repository/LibraryRepository.java:113-126 | Returns the id of the category row holding the name. The table becomes `UpsertName` of the old one. |
| `Repository.LibraryRepository.UpsertPublisher` | src/main/java/com/library/repository/LibraryRepository.java:128-141 | Returns the id of the publisher row holding the name. The table becomes `UpsertName` of the old one. |
| `Repository.LibraryRepository.FindLoansByReader` | src/main/java/com/library/repository/LibraryRepository.java:90-111 | Returns exactly the stored loans whose reader is the one given, each once, as stored. |
| `Repository.LibraryRepository.ListCategories` | src/main/java/com/library/repository/LibraryRepository.java:143-154 | Returns every category row once, with its stored name. |
| `Repository.LibraryRepository.ListPublishers` | src/main/java/com/library/repository/LibraryRepository.java:156-167 | Returns every publisher row once, with its stored name. |
| `Repository.LibraryRepository.ListBooks` | src/main/java/com/library/repository/LibraryRepository.java:169-193 | Returns exactly the books whose category and publisher exist, each once, joined with both names, ids strictly descending. |
| `Repository.LibraryRepository.ListReaders` | src/main/java/com/library/repository/LibraryRepository.java:195-212 | Returns every reader once, as stored, ids strictly descending. |
| `Repository.LibraryRepository.ListLoanDetails` | src/main/java/com/library/repository/LibraryRepository.java:214-238 | Returns exactly the loans whose book and reader exist, each once, joined with the title and the reader's name. Ordered by borrowed date, then id, both descending. |
| `Service.FineZeroUnlessLate` | src/main/java/com/library/service/LibraryService.java:80-86 | A return on or before the due date costs nothing, at any rate. |
| `Service.FineWhenLate` | src/main/java/com/library/service/LibraryService.java:81-83 | A late return costs the whole days overdue times the daily rate, with no grace period and no cap. |
| `Service.FinePositiveIffLate` | src/main/java/com/library/service/LibraryService.java:80-86 | With a positive rate, a fine is charged if and only if the return is after the due date. |
| `Service.FineMonotone` | src/main/java/com/library/service/LibraryService.java:80-86 | With a non-negative rate the fine is never negative and never falls as the return date moves later. |
| `Service.FineExamples` | src/main/java/com/library/service/LibraryService.java:80-86 | At rate 1.5: 5 days late costs 7.5; a return on the due date costs 0. |
| `Service.BorrowThenReturnOnDueDate` | src/main/java/com/library/service/LibraryService.java:34-46 | A new loan returned on its due date is stored with fine 0 and as returned. |
| `Service.ReturnUsesCallerDates` | src/main/java/com/library/service/LibraryService.java:42-46 | The fine comes from the due and return dates the caller passes, not from the stored loan. The stored return date is the day of the update, not the return date the fine used. |
| `Service.DemoScript` | src/main/java/com/library/App.java:12-23 | The demonstration script (borrow due in 30 days, renew to 60, return on day 65 at 1.5 per day) leaves loan 1 renewed once, returned, with fine 7.5. |
| `Service.LibraryService.constructor` | src/main/java/com/library/service/LibraryService.java:21-24 | Keeps the repository and the daily rate given. |
| `Service.LibraryService.AddBook` | src/main/java/com/library/service/LibraryService.java:26-28 | Forwards to the book upsert unchanged. |
| `Service.LibraryService.AddReader` | src/main/java/com/library/service/LibraryService.java:30-32 | Forwards to the reader upsert unchanged. |
| `Service.LibraryService.BorrowBook` | src/main/java/com/library/service/LibraryService.java:34-36 | Adds the loan with no availability check. |
| `Service.LibraryService.RenewLoan` | src/main/java/com/library/service/LibraryService.java:38-40 | Renews with no limit and no state check. |
| `Service.LibraryService.ReturnBook` | src/main/java/com/library/service/LibraryService.java:42-46 | Returns `Fine` of the rate and the dates given. That same amount is stored as the loan's fine, with today as its return date. |
| `Service.LibraryService.FindLoansByReader` | src/main/java/com/library/service/LibraryService.java:48-50 | Exactly the reader's loans, each once. |
| `Service.LibraryService.SaveCategory` | src/main/java/com/library/service/LibraryService.java:52-54 | The id and the table after the category upsert. |
| `Service.LibraryService.SavePublisher` | src/main/java/com/library/service/LibraryService.java:56-58 | The id and the table after the publisher upsert. |
| `Service.LibraryService.ListCategories` | src/main/java/com/library/service/LibraryService.java:60-62 | Every category once. |
| `Service.LibraryService.ListPublishers` | src/main/java/com/library/service/LibraryService.java:64-66 | Every publisher once. |
| `Service.LibraryService.ListBooks` | src/main/java/com/library/service/LibraryService.java:68-70 | The joined books, newest id first. |
| `Service.LibraryService.ListReaders` | src/main/java/com/library/service/LibraryService.java:72-74 | The readers, newest id first. |
| `Service.LibraryService.ListLoanDetails` | src/main/java/com/library/service/LibraryService.java:76-78 | The joined loans, most recently borrowed first. |
| `JavaText.Trim` | src/main/java/com/library/ui/LibraryFrame.java:174-175 | `trim` returns a contiguous slice of its input, with only characters at or below U+0020 cut from either end and no such character left at either end. It is empty exactly when every character is at or below U+0020. |
| `JavaText.TrimUnpadded` | src/main/java/com/library/ui/LibraryFrame.java:240-241 | Text with nothing to trim at either end is returned unchanged. |
| `JavaText.TrimIdempotent` | src/main/java/com/library/ui/LibraryFrame.java:474 | Trimming twice is trimming once. |
| `JavaText.IsBlank` | src/main/java/com/library/ui/LibraryFrame.java:185-187 | `isBlank` holds exactly when every character is white space in the sense of `Character.isWhitespace`. |
| `JavaText.BlankIsNotTrimmedEmpty` | src/main/java/com/library/ui/LibraryFrame.java:174-187 | The form's two emptiness tests differ. An ideographic space is blank, so the published-date field or the available-count field holding it counts as empty (the only two fields tested with `isBlank`), but it survives `trim`, so an ISBN holding it is not empty. A NUL is the reverse. |
| `JavaText.ParseInteger` | src/main/java/com/library/ui/LibraryFrame.java:186-187 | An accepted text is an optional sign followed by at least one ASCII digit. Its value lies in the type's range. With `ParseIntegerSigned` this characterises the result exactly. |
| `JavaText.ParseIntegerSigned` | src/main/java/com/library/ui/LibraryFrame.java:186-187 | A sign (none, `+` or `-`) followed by one or more digits parses to the signed value when it is in range, and is refused otherwise. Leading zeros and `+` are accepted. |
| `JavaText.ParseIntOrThrow` | src/main/java/com/library/ui/LibraryFrame.java:186 | Returns the `int` value, or throws with `For input string: "<text>"` exactly when the text is not an in-range `int`. |
| `JavaText.ParseDecimal` | src/main/java/com/library/ui/LibraryFrame.java:474 | Every in-range integer written in decimal parses back to itself. |
| `JavaText.ParseIntExamples` | src/main/java/com/library/ui/LibraryFrame.java:186 | `+7` and `-0` are accepted. The empty text, a lone sign, an inner space and 2147483648 are refused. |
| `Frame.ParseLongField` | src/main/java/com/library/ui/LibraryFrame.java:472-478 | Ok exactly when the trimmed text is a `long`, and then its value is that `long`. Otherwise the error is the field's label followed by "格式不正确". |
| `Frame.ParseLongFieldDecimal` | src/main/java/com/library/ui/LibraryFrame.java:472-478 | Any `long` typed in decimal is read back as itself. |
| `Frame.BookForm` | src/main/java/com/library/ui/LibraryFrame.java:172-192 | The checks run in the source's order, each with its own message. An empty trimmed ISBN or title is refused first. Then a missing category or publisher is refused. Then a non-blank published date that does not parse is refused with the parse error. Then a total that is not an `int` is refused with the `NumberFormatException` message for the trimmed total. Then a non-blank available count that is not an `int` is refused with that message for it. Then an available count above the total is refused. A form passing every check is accepted. An accepted book has the trimmed ISBN and title and the chosen category and publisher. Its total is the parsed total field. Its available count is the parsed available field, or the total when that field is blank. The available count never exceeds the total. Its published date is the parsed date, or none when that field is blank. |
| `Frame.BookFormRefusesExcess` | src/main/java/com/library/ui/LibraryFrame.java:186-190 | Whenever both counts parse and the available count is above the total, the form is refused. Once the earlier checks pass, the message is "在册数不能大于总册数". |
| `Frame.BookFormAccepts` | src/main/java/com/library/ui/LibraryFrame.java:174-192 | A complete form with a blank available field is accepted, with every copy available. |
| `Frame.ReaderForm` | src/main/java/com/library/ui/LibraryFrame.java:240-246 | A bad expiry date is reported before anything else. Then an empty trimmed name or card number is refused. Otherwise the reader is accepted with the trimmed name and card, the parsed expiry and fine 0. |
| `Frame.ReaderFormAccepts` | src/main/java/com/library/ui/LibraryFrame.java:240-246 | A form with a name, a card number and a valid expiry is accepted as typed. |
| `Frame.Borrowable` | src/main/java/com/library/ui/LibraryFrame.java:397-399 | The borrow combo holds exactly the cached books that have a copy available. |
| `Frame.BorrowableAppend` | src/main/java/com/library/ui/LibraryFrame.java:417-419 | The filter keeps the cache's order: it distributes over concatenation. |
| `Frame.IndexOfFirst` | src/main/java/com/library/ui/LibraryFrame.java:349 | The index found holds the id and no earlier index does. There is none exactly when no item has the id. |
| `Frame.ReturnTarget` | src/main/java/com/library/ui/LibraryFrame.java:343-351 | A selected row within the cache is used as is. Otherwise the typed id must parse, else that error. The result is then the first cached loan with the id, or "未找到对应的借阅记录" when there is none. |
| `Frame.ReturnTargetByTypedId` | src/main/java/com/library/ui/LibraryFrame.java:347-350 | With no row selected, typing a cached loan's id finds the first cached loan with that id. |
| `Frame.LibraryFrame.constructor` | src/main/java/com/library/ui/LibraryFrame.java:73-74 | The service charges 1.5 per day overdue; the caches start empty. |
| `Frame.LibraryFrame.ReloadLookups` | src/main/java/com/library/ui/LibraryFrame.java:388-400 | Reloads the category, publisher, reader and book lists from the database and refills the borrow combo. The category and publisher combos each select their first item, or nothing when empty. |
| `Frame.LibraryFrame.ReloadBooks` | src/main/java/com/library/ui/LibraryFrame.java:402-420 | The book cache is the book listing, and the borrow combo is its borrowable part. |
| `Frame.LibraryFrame.ReloadReaders` | src/main/java/com/library/ui/LibraryFrame.java:422-435 | The reader cache is the reader listing. |
| `Frame.LibraryFrame.ReloadLoans` | src/main/java/com/library/ui/LibraryFrame.java:437-452 | The loan cache is the loan detail listing. |
| `Frame.LibraryFrame.SelectCategory` | src/main/java/com/library/ui/LibraryFrame.java:454-461 | Selects the first item with the id. With no such item the selection stays. |
| `Frame.LibraryFrame.SelectPublisher` | src/main/java/com/library/ui/LibraryFrame.java:463-470 | Selects the first item with the id. With no such item the selection stays. |
| `Frame.LibraryFrame.AddCategory` | src/main/java/com/library/ui/LibraryFrame.java:138-153 | A blank name writes nothing and gives "请输入分类名称". A refusal leaves the form's lists, caches and selections as they were. Otherwise the trimmed name is upserted. The category, publisher, reader and book lists are then the current listings, and the loan cache is kept. The category combo ends with the saved category selected; the publisher combo selects its first item, or none when empty. |
| `Frame.LibraryFrame.AddPublisher` | src/main/java/com/library/ui/LibraryFrame.java:155-170 | A blank name writes nothing and gives "请输入出版社名称". A refusal leaves the form's lists, caches and selections as they were. Otherwise the trimmed name is upserted. The category, publisher, reader and book lists are then the current listings, and the loan cache is kept. The publisher combo ends with the saved publisher selected; the category combo selects its first item, or none when empty. |
| `Frame.LibraryFrame.SaveBook` | src/main/java/com/library/ui/LibraryFrame.java:172-198 | The category and publisher are the combos' selected items. The outcome is `BookForm` of the fields. A refused form writes nothing and leaves the form as it was. An accepted one upserts the book, and the book cache is then the current book listing. |
| `Frame.LibraryFrame.SaveReader` | src/main/java/com/library/ui/LibraryFrame.java:238-253 | The outcome is `ReaderForm` of the fields. A refused form writes nothing and leaves the form as it was. An accepted one upserts the reader. The category, publisher, reader and book lists are then the current listings, each combo selects its first item or none, and the loan cache is kept. |
| `Frame.LibraryFrame.Borrow` | src/main/java/com/library/ui/LibraryFrame.java:290-305 | The reader and book come from their combos. A missing reader or book is refused with its message. Then a bad due date is refused with the parse error. Neither refusal writes anything. Otherwise the outcome is Ok and exactly one loan is added, for the chosen reader and a book that had a copy available when the cache was loaded. A refusal leaves the form as it was. On success the loan and book caches are the current listings, and only they and the borrow combo change. |
| `Frame.LibraryFrame.Renew` | src/main/java/com/library/ui/LibraryFrame.java:319-329 | A bad loan id is reported first, then a bad date. Neither writes anything. Otherwise the outcome is Ok and the typed loan is renewed to the date. A refusal leaves the form as it was. On success the loan cache is the current loan listing, and nothing else in the form changes. |
| `Frame.LibraryFrame.Return` | src/main/java/com/library/ui/LibraryFrame.java:341-360 | A failed lookup is reported first, then a bad date. Neither writes anything. Otherwise the outcome is Ok. The fine comes from the cached due date of the resolved loan and the typed date, and that loan is closed today with that fine. A refusal leaves the form as it was. On success the loan and book caches are the current listings, and only they and the borrow combo change. |

## Left out

- Connections and the pool are not modelled: JDBC, HikariCP and the `DatabaseManager` configuration. An SQL failure of any statement is not modelled either; every write succeeds.
- Foreign keys and database constraints are not modelled. A loan may name a missing book or reader, in which case the joined listings skip it. A book may name a missing category or publisher.
- The database triggers that adjust `available_copies` when a loan is inserted or returned live in the schema, not in the Java code, so they are not part of this model. In the model, borrowing and returning leave the book rows unchanged.
- The payments table and the stored procedure for a reader's loan history are also schema-level and not part of this model.
- The "no generated key" branch of `upsertCategory`/`upsertPublisher` is not modelled. `upsertCategory` throws `SQLException("无法获取分类 ID")` and `upsertPublisher` throws `SQLException("无法获取出版社 ID")`; MySQL always returns a key for this statement, so the model always returns an id.
- Every `ON DUPLICATE KEY UPDATE` is modelled as allocating exactly one AUTO_INCREMENT value, which the update path loses. This is InnoDB's behaviour for a single-row insert under its default lock modes. Other engines and settings, and the `auto_increment_increment` step, are not modelled.
- MySQL string comparison is not modelled. Case-insensitive and trailing-space-insensitive collation in unique keys is replaced by exact equality.
- `Repository.LibraryRepository.ListCategories`: the contract does not state the `ORDER BY name` order, because it depends on the database collation. Only "each row once" is stated.
- `Repository.LibraryRepository.ListPublishers`: does not state the `ORDER BY name` order, for the same reason.
- `Service.LibraryService.ListCategories`: passes the repository's listing through, so it does not state the `ORDER BY name` order either.
- `Service.LibraryService.ListPublishers`: passes the repository's listing through, so it does not state the `ORDER BY name` order either.
- `Repository.LibraryRepository.FindLoansByReader`: the query has no `ORDER BY`, so no order is stated. The loop happens to produce descending ids.
- Money is `real`, not IEEE `double`, so rounding of `overdueDays * dailyFine` is not modelled.
- `LocalDate.parse` and the calendar are not modelled. A date field's parse outcome, or its `DateTimeParseException` message, is an input.
- `CURDATE()`, `LocalDate.now()` and the server time zone are a `today` parameter.
- `JavaText.ParseInteger`: accepts only ASCII digits. `Character.digit` would also accept other Unicode decimal digits.
- `JavaText.IsBlank`: the set of space separators is written out as a fixed list and does not follow changes in later Unicode versions.
- The renewal count and the copy counts are unbounded integers. A 32-bit overflow of `renewals + 1` after 2^31 renewals is not modelled.
- Widgets are not modelled: table models, labels, dialogs (`showInfo`/`showError`), clearing the text fields, and Swing threading. The initial `invokeLater` load and the three refresh buttons only call the reload methods and are not separate members.
- A listener's error is its `Result`. Exceptions from the database layer in a listener are not modelled.
- `App.main` prints the fine. It appears only as the lemma `Service.DemoScript`, without the output and starting from an empty database.
