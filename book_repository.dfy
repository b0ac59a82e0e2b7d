/** The in-memory catalogue: an ordered list of books, unique by ISBN. */
module Repository {
  import opened Optional
  import opened Books
  import opened BookLists

  class BookRepository {
    /** The books held, in insertion order. */
    var books: seq<Book>

    /** The invariant every mutator keeps: no two entries share an ISBN. */
    ghost predicate Valid()
      reads this
    {
      UniqueIsbns(books)
    }

    /** A repository starts empty. */
    constructor ()
      ensures Valid() && books == []
    {
      books := [];
    }

    /** Appends `book` unless an entry already carries its ISBN. */
    method AddBook(book: Book)
      requires Valid()
      modifies this
      ensures Valid()
      ensures books == Added(old(books), book)
      ensures HasBook(book.isbn)
      ensures old(HasBook(book.isbn)) ==> books == old(books)
      ensures !old(HasBook(book.isbn)) ==> books == old(books) + [book]
    {
      if !HasBook(book.isbn) {
        books := books + [book];
      }
    }

    /** Whether some entry carries this ISBN. */
    function HasBook(isbn: string): (r: bool)
      reads this
      ensures r <==> HasIsbn(books, isbn)
    {
      AnyWithIsbn(books, isbn)
    }

    /** Deletes the first entry with this ISBN, keeping the others in order;
        does nothing when no entry has it. */
    method RemoveBook(isbn: string)
      requires Valid()
      modifies this
      ensures Valid()
      ensures books == Removed(old(books), isbn)
      ensures !HasBook(isbn)
      ensures !old(HasBook(isbn)) ==> books == old(books)
      ensures old(HasBook(isbn)) ==> |books| == |old(books)| - 1
    {
      var bookToRemove := FirstWithIsbn(books, isbn);
      if bookToRemove.Some? {
        ghost var k := FirstIndex(books, isbn);
        RemoveFirstAt(books, bookToRemove.value, k);
        books := RemoveFirst(books, bookToRemove.value);
      }
    }

    /** The number of entries, which is the number of distinct ISBNs held. */
    function GetBookCount(): (n: nat)
      reads this
      requires Valid()
      ensures n == |Isbns(books)|
    {
      UniqueIsbnsCount(books);
      |books|
    }

    /** The entry with this ISBN, or None when there is none. */
    function GetBookByIsbn(isbn: string): (r: Option<Book>)
      reads this
      requires Valid()
      ensures r.None? <==> !HasIsbn(books, isbn)
      ensures forall k :: 0 <= k < |books| && books[k].isbn == isbn ==> r == Some(books[k])
    {
      var r := FirstWithIsbn(books, isbn);
      assert forall k :: 0 <= k < |books| && books[k].isbn == isbn ==> k == FirstIndex(books, isbn);
      r
    }

    /** A snapshot of the entries in insertion order; being a value, it cannot
        be used to change the repository. */
    function GetAllBooks(): (r: seq<Book>)
      reads this
      requires Valid()
      ensures r == books && UniqueIsbns(r)
    {
      books
    }
  }
}
