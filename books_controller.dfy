/**
 * The REST controller's decisions: which result kind each action returns and
 * when it changes the repository. Routing, headers and message texts are not
 * part of this model.
 */
module Controllers {
  import opened Optional
  import opened Books
  import opened BookLists
  import opened Repository

  /** The result kinds the actions return, with their payload. */
  datatype ActionResult<T> =
    | Ok(value: T)
    | Created(value: T)
    | NoContent
    | BadRequest
    | NotFound
    | Conflict

  /** A book as bound from a request body; `isbn` is None when the body
      leaves it out or sets it to null. */
  datatype BookBody = BookBody(title: string, author: string, isbn: Option<string>)
  {
    function ToBook(): (b: Book)
      requires isbn.Some?
      ensures b.title == title && b.author == author && b.isbn == isbn.value
    {
      Book(title, author, isbn.value)
    }
  }

  /** The 25 characters .NET documents as white space, one by one. */
  const WhiteSpaceChars: set<char> := {
    '\U{0009}', '\U{000A}', '\U{000B}', '\U{000C}', '\U{000D}',
    '\U{0020}', '\U{0085}', '\U{00A0}', '\U{1680}',
    '\U{2000}', '\U{2001}', '\U{2002}', '\U{2003}', '\U{2004}', '\U{2005}',
    '\U{2006}', '\U{2007}', '\U{2008}', '\U{2009}', '\U{200A}',
    '\U{2028}', '\U{2029}', '\U{202F}', '\U{205F}', '\U{3000}'
  }

  /** .NET's `char.IsWhiteSpace`: the Unicode space, line and paragraph
      separators, the controls U+0009 to U+000D, and U+0085. */
  predicate IsWhiteSpace(c: char): (r: bool)
    ensures r <==> c in WhiteSpaceChars
  {
    || '\U{0009}' <= c <= '\U{000D}'
    || c == '\U{0020}'
    || c == '\U{0085}'
    || c == '\U{00A0}'
    || c == '\U{1680}'
    || '\U{2000}' <= c <= '\U{200A}'
    || c == '\U{2028}'
    || c == '\U{2029}'
    || c == '\U{202F}'
    || c == '\U{205F}'
    || c == '\U{3000}'
  }

  /** The scan inside `string.IsNullOrWhiteSpace`: stops at the first
      character that is not white space. */
  predicate AllWhiteSpace(t: string): (r: bool)
    ensures r <==> forall i | 0 <= i < |t| :: t[i] in WhiteSpaceChars
  {
    if t == [] then true
    else if !IsWhiteSpace(t[0]) then false
    else
      assert forall i | 0 < i < |t| :: t[i] == t[1..][i - 1];
      AllWhiteSpace(t[1..])
  }

  /** `string.IsNullOrWhiteSpace`: null, empty, or white space only. */
  predicate IsNullOrWhiteSpace(s: Option<string>): (r: bool)
    ensures s.None? ==> r
    ensures s == Some("") ==> r
    ensures s.Some? ==> (r <==> forall i | 0 <= i < |s.value| :: s.value[i] in WhiteSpaceChars)
  {
    match s
    case None => true
    case Some(t) => AllWhiteSpace(t)
  }

  class BooksController {
    const repository: BookRepository

    constructor (repository: BookRepository)
      ensures this.repository == repository
    {
      this.repository := repository;
    }

    /** Every book held, in insertion order. */
    function GetBooks(): (r: ActionResult<seq<Book>>)
      reads repository
      requires repository.Valid()
      ensures r.Ok? && r.value == repository.books
    {
      Ok(repository.GetAllBooks())
    }

    /** The book with this ISBN, or NotFound. */
    function GetBook(isbn: string): (r: ActionResult<Book>)
      reads repository
      requires repository.Valid()
      ensures r.Ok? || r.NotFound?
      ensures r.NotFound? <==> !HasIsbn(repository.books, isbn)
      ensures forall k :: 0 <= k < |repository.books| && repository.books[k].isbn == isbn ==>
        r == Ok(repository.books[k])
    {
      var book := repository.GetBookByIsbn(isbn);
      if book.None? then NotFound else Ok(book.value)
    }

    /** Adds the body's book when it has an ISBN that is not blank and not
        already held; otherwise reports why and changes nothing. */
    method CreateBook(body: Option<BookBody>) returns (r: ActionResult<Book>)
      requires repository.Valid()
      modifies repository
      ensures repository.Valid()
      ensures r.BadRequest? || r.Conflict? || r.Created?
      ensures r.BadRequest? <==> body.None? || IsNullOrWhiteSpace(body.value.isbn)
      ensures r.Conflict? <==>
        body.Some? && !IsNullOrWhiteSpace(body.value.isbn) &&
        old(HasIsbn(repository.books, body.value.isbn.value))
      ensures !r.Created? ==> repository.books == old(repository.books)
      ensures r.Created? ==>
        body.Some? && body.value.isbn.Some? && r.value == body.value.ToBook() &&
        repository.books == old(repository.books) + [r.value] &&
        HasIsbn(repository.books, r.value.isbn)
    {
      if body.None? {
        return BadRequest;
      }
      var book := body.value;
      if IsNullOrWhiteSpace(book.isbn) {
        return BadRequest;
      }
      if repository.HasBook(book.isbn.value) {
        return Conflict;
      }
      repository.AddBook(book.ToBook());
      return Created(book.ToBook());
    }

    /** Removes the book with this ISBN, or reports NotFound and changes
        nothing. */
    method DeleteBook(isbn: string) returns (r: ActionResult<()>)
      requires repository.Valid()
      modifies repository
      ensures repository.Valid()
      ensures r.NoContent? || r.NotFound?
      ensures r.NotFound? <==> !old(HasIsbn(repository.books, isbn))
      ensures r.NotFound? ==> repository.books == old(repository.books)
      ensures r.NoContent? ==>
        repository.books == Removed(old(repository.books), isbn) &&
        |repository.books| == |old(repository.books)| - 1 &&
        !HasIsbn(repository.books, isbn)
    {
      if !repository.HasBook(isbn) {
        return NotFound;
      }
      repository.RemoveBook(isbn);
      return NoContent;
    }

    /** The number of books held. */
    function GetBookCount(): (r: ActionResult<int>)
      reads repository
      requires repository.Valid()
      ensures r.Ok? && r.value == |repository.books| == |Isbns(repository.books)|
    {
      Ok(repository.GetBookCount())
    }

    /** Whether a book with this ISBN is held. */
    function BookExists(isbn: string): (r: ActionResult<bool>)
      reads repository
      ensures r.Ok? && (r.value <==> HasIsbn(repository.books, isbn))
    {
      Ok(repository.HasBook(isbn))
    }
  }
}
