# Library catalogue: a Dafny model

This project models the core of a small library management system. The core
is the in-memory book catalogue (`BookRepository`), its `Book` entity, and the
decision logic of the REST controller in front of it (`BooksController`).

- `Book` is an immutable value of title, author and ISBN. Any string is
  accepted for each field, including the empty string.
- `BookRepository` holds an ordered list of books. It keeps at most one entry
  per ISBN, and ISBNs are compared by exact string equality.
  - Adding a book whose ISBN is already held does nothing.
  - Removing an ISBN that is not held does nothing.
- `BooksController` turns requests into result kinds:
  - creating a book gives BadRequest, Conflict or Created;
  - deleting a book gives NotFound or NoContent;
  - the lookups give Ok or NotFound.

Files and modules:

- `optional.dfy` (`Optional`): `Option`, which stands where the source returns `null`.
- `book.dfy` (`Books`): the `Book` datatype.
- `book_lists.dfy` (`BookLists`): the list operations the repository uses,
  as functions on `seq<Book>`. These are LINQ `Any` and `FirstOrDefault` and
  `List.Remove`, each proved against a reference definition. The module also
  has `Added` and `Removed`, which give the new list after an add or a
  remove, and lemmas about runs of adds, counting and add-then-remove.
- `book_repository.dfy` (`Repository`): class `BookRepository`.
  - Its field `books` is the source's `_booklist`.
  - `Valid()` is the uniqueness invariant.
  - `AddBook` and `RemoveBook` are methods that update `books`.
  - The read-only queries are functions.
- `books_controller.dfy` (`Controllers`): class `BooksController`.
  - It holds a repository and returns `ActionResult<T>`.
  - `CreateBook` and `DeleteBook` are methods that may modify the repository.
  - The other actions are functions that only read it.

## Model

| member | source | states |
|---|---|---|
| `Books.BookKeepsFields` | LMS.BusinessLogic/Book.cs:9-14 | a book built from any title, author and ISBN (including empty or non-numeric ones) holds exactly those three values |
| `BookLists.AnyWithIsbn` | LMS.BusinessLogic/BookRepository.cs:21 | the front-to-back scan is true exactly when some entry's ISBN equals the argument |
| `BookLists.FirstWithIsbn` | LMS.BusinessLogic/BookRepository.cs:40 | the lookup is None exactly when no entry has the ISBN; otherwise it is the entry at the first position with that ISBN |
| `BookLists.RemoveFirst` | LMS.BusinessLogic/BookRepository.cs:29 | `List.Remove` of a book that is not in the list leaves the list unchanged. For a book that is in the list, it removes exactly one copy of that book: the length falls by 1, and the removed book plus the remaining entries make up the original list as a multiset |
| `BookLists.RemoveFirstAt` | LMS.BusinessLogic/BookRepository.cs:29 | when a book first occurs at position k, `List.Remove` of that book deletes position k and keeps the rest in order |
| `BookLists.Added` | LMS.BusinessLogic/BookRepository.cs:10-17 | after an add, the ISBN is held. A held ISBN leaves the list unchanged. A new ISBN appends the book at the end. The set of ISBNs grows by exactly that ISBN, and uniqueness is kept |
| `BookLists.Removed` | LMS.BusinessLogic/BookRepository.cs:24-31 | an absent ISBN leaves the list unchanged. A present one deletes the first entry with it, so the length falls by 1 and the others stay in order. Uniqueness is kept, the ISBN is no longer held, and no other ISBN is lost |
| `BookLists.DeleteAtKeepsUnique` | LMS.BusinessLogic/BookRepository.cs:26-30 | deleting one entry from a unique-by-ISBN list keeps it unique and removes that entry's ISBN and no other |
| `BookLists.UniqueIsbnsCount` | LMS.BusinessLogic/BookRepository.cs:33-36 | in a unique-by-ISBN list the number of entries equals the number of distinct ISBNs |
| `BookLists.AddAllIsbns` | LMS.BusinessLogic/BookRepository.cs:13-15 | a run of adds keeps uniqueness, and afterwards the ISBNs held are those held before plus those of the books added |
| `BookLists.DistinctAddsCount` | LMS.BusinessLogic/BookRepository.cs:13-15 | starting empty, the count after a run of adds is the number of distinct ISBNs among the books added, so duplicate ISBNs add nothing |
| `BookLists.DistinctAddsAppend` | LMS.BusinessLogic/BookRepository.cs:15 | adds of books whose ISBNs are new and pairwise distinct append them in insertion order |
| `BookLists.AddThenRemove` | LMS.BusinessLogic/BookRepository.cs:10-31 | removing the ISBN just added to a list that did not hold it restores the list |
| `Repository.BookRepository.constructor` | LMS.BusinessLogic/BookRepository.cs:8 | a new repository is empty and satisfies the invariant |
| `Repository.BookRepository.AddBook` | LMS.BusinessLogic/BookRepository.cs:10-17 | keeps the invariant. The new list is `Added(old list, book)`, the ISBN is held afterwards, a held ISBN leaves the list unchanged, and a new one appends the book |
| `Repository.BookRepository.HasBook` | LMS.BusinessLogic/BookRepository.cs:19-22 | true exactly when some entry's ISBN equals the argument |
| `Repository.BookRepository.RemoveBook` | LMS.BusinessLogic/BookRepository.cs:24-31 | keeps the invariant. The new list is `Removed(old list, isbn)` and the ISBN is no longer held. An absent ISBN leaves the list unchanged; a present one lowers the count by 1 |
| `Repository.BookRepository.GetBookCount` | LMS.BusinessLogic/BookRepository.cs:33-36 | the count is the number of distinct ISBNs held |
| `Repository.BookRepository.GetBookByIsbn` | LMS.BusinessLogic/BookRepository.cs:38-41 | None exactly when the ISBN is not held; otherwise the one entry with that ISBN, with its title and author |
| `Repository.BookRepository.GetAllBooks` | LMS.BusinessLogic/BookRepository.cs:43-46 | the entries as held, in insertion order and unique by ISBN, as an immutable value |
| `Controllers.BookBody.ToBook` | LMS.WebAPI/Controllers/BooksController.cs:41 | the book bound from a request body whose ISBN is present carries the body's title, author and ISBN unchanged |
| `Controllers.IsWhiteSpace` | LMS.WebAPI/Controllers/BooksController.cs:48 | a character counts as white space exactly when it is one of the 25 characters .NET treats as white space, listed one by one |
| `Controllers.AllWhiteSpace` | LMS.WebAPI/Controllers/BooksController.cs:48 | the front-to-back scan is true exactly when every character of the string is white space, so it is true for the empty string |
| `Controllers.IsNullOrWhiteSpace` | LMS.WebAPI/Controllers/BooksController.cs:48 | true for a null ISBN and for the empty string. For a present string, true exactly when every character is in .NET's white-space list |
| `Controllers.BooksController.constructor` | LMS.WebAPI/Controllers/BooksController.cs:12-15 | the controller uses the repository it is given |
| `Controllers.BooksController.GetBooks` | LMS.WebAPI/Controllers/BooksController.cs:19-23 | Ok with the repository's list, unchanged |
| `Controllers.BooksController.GetBook` | LMS.WebAPI/Controllers/BooksController.cs:27-37 | only Ok or NotFound. NotFound exactly when the ISBN is not held; otherwise Ok with the repository's entry for that ISBN |
| `Controllers.BooksController.CreateBook` | LMS.WebAPI/Controllers/BooksController.cs:41-62 | BadRequest exactly when the body is null or its ISBN is null, empty or whitespace. Conflict exactly when the ISBN is already held. Both leave the repository unchanged. Otherwise it returns Created with the body's book, appends that book, and the ISBN is then held |
| `Controllers.BooksController.DeleteBook` | LMS.WebAPI/Controllers/BooksController.cs:66-76 | NotFound exactly when the ISBN is not held, with the repository unchanged. Otherwise NoContent, with the entry removed, the count lowered by 1 and the ISBN no longer held |
| `Controllers.BooksController.GetBookCount` | LMS.WebAPI/Controllers/BooksController.cs:80-83 | Ok with the list length, which is the number of distinct ISBNs held |
| `Controllers.BooksController.BookExists` | LMS.WebAPI/Controllers/BooksController.cs:87-90 | Ok with true exactly when the ISBN is held |

## Left out

- Concurrency: one repository instance is shared by all requests without
  locking (LMS.WebAPI/Program.cs:7). The model has a single sequential caller.
- ASP.NET plumbing is not modelled: routing attributes, the Location header of
  `CreatedAtAction`, the text of error messages, model binding and any
  automatic 400 responses issued before an action runs. Each action returns
  only its result kind and payload.
- Null strings: only the ISBN of a request body can be null in the model
  (`BookBody.isbn` is an `Option`). A null title or author is not modelled.
- A `Book` with a null field is not modelled either. In C#,
  `new Book(title, author, null)` is accepted, and `AddBook`, `HasBook(null)`
  and `RemoveBook(null)` all work on it through ordinal `==`
  (LMS.BusinessLogic/BookRepository.cs:13,21,26). Only code that calls the
  repository directly can reach this case, because the controller rejects a
  null ISBN before it calls the repository
  (LMS.WebAPI/Controllers/BooksController.cs:48).
- A null `book` argument to `AddBook` does not arise in the model, because a
  Dafny datatype value is never null.
- `List.Remove` compares by reference in the source and by value here. The
  removed entry is the same either way, because no earlier entry has the
  ISBN, so no earlier entry can equal the book that is removed.
- `char.IsWhiteSpace` is written out as .NET's list of whitespace code points.
  Dafny's `char` is a Unicode scalar value, not a UTF-16 unit. Every
  whitespace character is in the Basic Multilingual Plane, so the answer is
  the same.
- `GetAllBooks` copies the list (`ToList`). Here the copy is a `seq` value, so
  aliasing between the snapshot and the repository cannot arise and is not
  stated separately.
- `LMS.WebAPI/Program.cs` (service registration, CORS origins, Swagger) is
  not part of this model.
- The Angular front end is not part of this model. It is UI and HTTP-client
  code; its only check is that all three form fields are non-empty.
