/** The catalogue's entity: an immutable title, author and ISBN. */
module Books {

  /** A book. Every string is accepted: empty titles, empty ISBNs and ISBNs
      that are not numbers are all ordinary values, and a value never changes
      after it is built. */
  datatype Book = Book(title: string, author: string, isbn: string)

  /** Building a book keeps each argument exactly as given and checks nothing. */
  lemma BookKeepsFields(title: string, author: string, isbn: string)
    ensures var b := Book(title, author, isbn);
      b.title == title && b.author == author && b.isbn == isbn
  {
  }
}
