/**
 * The repository's list of books as a value: the list queries the repository
 * runs (`Any`, `FirstOrDefault`, `List.Remove`), a reference definition for
 * each, the new list after an add or a remove, and what those keep.
 */
module BookLists {
  import opened Optional
  import opened Books

  /** The repository's invariant: no two entries share an ISBN. */
  ghost predicate UniqueIsbns(s: seq<Book>) {
    forall i, j :: 0 <= i < j < |s| ==> s[i].isbn != s[j].isbn
  }

  /** Some entry carries this ISBN (ordinal string equality). */
  ghost predicate HasIsbn(s: seq<Book>, isbn: string) {
    exists i :: 0 <= i < |s| && s[i].isbn == isbn
  }

  /** The ISBNs held. */
  ghost function Isbns(s: seq<Book>): set<string> {
    set b | b in s :: b.isbn
  }

  /** The position of the first entry with this ISBN. */
  ghost function FirstIndex(s: seq<Book>, isbn: string): (k: nat)
    requires HasIsbn(s, isbn)
    ensures k < |s| && s[k].isbn == isbn
    ensures forall j :: 0 <= j < k ==> s[j].isbn != isbn
  {
    if s[0].isbn == isbn then 0
    else
      assert HasIsbn(s[1..], isbn) by {
        var i :| 0 <= i < |s| && s[i].isbn == isbn;
        assert s[1..][i - 1] == s[i];
      }
      1 + FirstIndex(s[1..], isbn)
  }

  /** `Any(b => b.Isbn == isbn)`: a scan from the front. */
  function AnyWithIsbn(s: seq<Book>, isbn: string): (r: bool)
    ensures r <==> HasIsbn(s, isbn)
  {
    if s == [] then false
    else if s[0].isbn == isbn then true
    else
      assert HasIsbn(s, isbn) ==> HasIsbn(s[1..], isbn) by {
        if HasIsbn(s, isbn) {
          var i :| 0 <= i < |s| && s[i].isbn == isbn;
          assert s[1..][i - 1] == s[i];
        }
      }
      assert HasIsbn(s[1..], isbn) ==> HasIsbn(s, isbn) by {
        if HasIsbn(s[1..], isbn) {
          var i :| 0 <= i < |s[1..]| && s[1..][i].isbn == isbn;
          assert s[i + 1] == s[1..][i];
        }
      }
      AnyWithIsbn(s[1..], isbn)
  }

  /** `FirstOrDefault(b => b.Isbn == isbn)`: the first entry with this ISBN,
      or None where the source returns null. */
  function FirstWithIsbn(s: seq<Book>, isbn: string): (r: Option<Book>)
    ensures r.None? <==> !HasIsbn(s, isbn)
    ensures r.Some? ==> HasIsbn(s, isbn) && r.value == s[FirstIndex(s, isbn)]
  {
    if s == [] then None
    else if s[0].isbn == isbn then Some(s[0])
    else
      var r := FirstWithIsbn(s[1..], isbn);
      assert HasIsbn(s, isbn) <==> HasIsbn(s[1..], isbn) by {
        if HasIsbn(s, isbn) {
          var i :| 0 <= i < |s| && s[i].isbn == isbn;
          assert s[1..][i - 1] == s[i];
        }
        if HasIsbn(s[1..], isbn) {
          var i :| 0 <= i < |s[1..]| && s[1..][i].isbn == isbn;
          assert s[i + 1] == s[1..][i];
        }
      }
      r
  }

  /** `List<Book>.Remove(b)`: drops the first entry equal to `b`, if any. */
  function RemoveFirst(s: seq<Book>, b: Book): (r: seq<Book>)
    ensures b !in s ==> r == s
    ensures b in s ==> |r| == |s| - 1 && multiset(r) + multiset{b} == multiset(s)
  {
    if s == [] then []
    else if s[0] == b then
      assert s == [s[0]] + s[1..];
      s[1..]
    else
      assert s == [s[0]] + s[1..];
      [s[0]] + RemoveFirst(s[1..], b)
  }

  /** When `b` first occurs at `k`, `List.Remove(b)` deletes position `k`. */
  lemma {:induction false} RemoveFirstAt(s: seq<Book>, b: Book, k: nat)
    requires k < |s| && s[k] == b
    requires forall j :: 0 <= j < k ==> s[j] != b
    ensures RemoveFirst(s, b) == s[..k] + s[k + 1..]
  {
    if k > 0 {
      RemoveFirstAt(s[1..], b, k - 1);
      assert s[1..][..k - 1] + s[1..][k..] == s[1..k] + s[k + 1..];
      assert [s[0]] + s[1..k] == s[..k];
    }
  }

  /** The list after `AddBook(book)`: appended at the end when the ISBN is new,
      left alone when it is already held. */
  ghost function Added(s: seq<Book>, book: Book): (r: seq<Book>)
    ensures HasIsbn(r, book.isbn)
    ensures HasIsbn(s, book.isbn) ==> r == s
    ensures !HasIsbn(s, book.isbn) ==> r == s + [book]
    ensures Isbns(r) == Isbns(s) + {book.isbn}
    ensures UniqueIsbns(s) ==> UniqueIsbns(r)
  {
    if HasIsbn(s, book.isbn) then
      var i :| 0 <= i < |s| && s[i].isbn == book.isbn;
      assert s[i] in s;
      s
    else
      var r := s + [book];
      assert r[|s|].isbn == book.isbn;
      r
  }

  /** The list after `RemoveBook(isbn)`: the first entry with that ISBN deleted,
      the others kept in order; unchanged when the ISBN is absent. */
  ghost function Removed(s: seq<Book>, isbn: string): (r: seq<Book>)
    ensures !HasIsbn(s, isbn) ==> r == s
    ensures HasIsbn(s, isbn) ==>
      var k := FirstIndex(s, isbn);
      r == s[..k] + s[k + 1..] && |r| == |s| - 1
    ensures UniqueIsbns(s) ==> UniqueIsbns(r) && !HasIsbn(r, isbn)
    ensures UniqueIsbns(s) ==> Isbns(r) == Isbns(s) - {isbn}
  {
    if HasIsbn(s, isbn) then
      var k := FirstIndex(s, isbn);
      DeleteAtKeepsUnique(s, k);
      s[..k] + s[k + 1..]
    else
      s
  }

  /** Deleting one entry from a list without repeated ISBNs keeps it so,
      removes that entry's ISBN and no other. */
  lemma DeleteAtKeepsUnique(s: seq<Book>, k: nat)
    requires k < |s|
    ensures var r := s[..k] + s[k + 1..];
      UniqueIsbns(s) ==>
        UniqueIsbns(r) && !HasIsbn(r, s[k].isbn) && Isbns(r) == Isbns(s) - {s[k].isbn}
  {
  }

  /** A run of `AddBook` calls starting from `s`, in order. */
  ghost function AddAll(s: seq<Book>, bs: seq<Book>): seq<Book>
    decreases |bs|
  {
    if bs == [] then s else AddAll(Added(s, bs[0]), bs[1..])
  }

  /** A list without repeated ISBNs holds one entry per distinct ISBN. */
  lemma {:induction false} UniqueIsbnsCount(s: seq<Book>)
    requires UniqueIsbns(s)
    ensures |Isbns(s)| == |s|
  {
    if s != [] {
      var t := s[1..];
      assert UniqueIsbns(t) by {
        forall i, j | 0 <= i < j < |t| ensures t[i].isbn != t[j].isbn {
          assert t[i] == s[i + 1] && t[j] == s[j + 1];
        }
      }
      UniqueIsbnsCount(t);
      assert Isbns(s) == {s[0].isbn} + Isbns(t) by {
        forall x | x in Isbns(s) ensures x in {s[0].isbn} + Isbns(t) {
          var b :| b in s && b.isbn == x;
          var i :| 0 <= i < |s| && s[i] == b;
          if i > 0 { assert t[i - 1] == b; }
        }
      }
      forall b | b in t ensures b.isbn != s[0].isbn {
        var i :| 0 <= i < |t| && t[i] == b;
        assert s[i + 1] == b;
      }
    }
  }

  /** The ISBNs held after a run of adds are those held before plus those added. */
  lemma {:induction false} AddAllIsbns(s: seq<Book>, bs: seq<Book>)
    requires UniqueIsbns(s)
    ensures UniqueIsbns(AddAll(s, bs))
    ensures Isbns(AddAll(s, bs)) == Isbns(s) + Isbns(bs)
    decreases |bs|
  {
    if bs != [] {
      AddAllIsbns(Added(s, bs[0]), bs[1..]);
      assert Isbns(bs) == {bs[0].isbn} + Isbns(bs[1..]) by {
        forall x | x in Isbns(bs) ensures x in {bs[0].isbn} + Isbns(bs[1..]) {
          var b :| b in bs && b.isbn == x;
          var i :| 0 <= i < |bs| && bs[i] == b;
          if i > 0 { assert bs[1..][i - 1] == b; }
        }
      }
    }
  }

  /** Starting empty, a run of adds leaves one entry per distinct ISBN among
      the books added: a repeated ISBN adds nothing. */
  lemma DistinctAddsCount(bs: seq<Book>)
    ensures |AddAll([], bs)| == |Isbns(bs)|
  {
    AddAllIsbns([], bs);
    UniqueIsbnsCount(AddAll([], bs));
    assert Isbns([]) == {};
  }

  /** Adds of books whose ISBNs are all new and pairwise distinct append them
      in the order they were added. */
  lemma {:induction false} DistinctAddsAppend(s: seq<Book>, bs: seq<Book>)
    requires UniqueIsbns(s + bs)
    ensures AddAll(s, bs) == s + bs
    decreases |bs|
  {
    if bs != [] {
      var u := s + bs;
      forall j | 0 <= j < |s| ensures s[j].isbn != bs[0].isbn {
        assert u[j] == s[j] && u[|s|] == bs[0];
      }
      assert s + [bs[0]] + bs[1..] == u;
      DistinctAddsAppend(s + [bs[0]], bs[1..]);
    }
  }

  /** Removing the ISBN just added to a list that did not hold it gives the
      list back. */
  lemma AddThenRemove(s: seq<Book>, book: Book)
    requires !HasIsbn(s, book.isbn)
    ensures Removed(Added(s, book), book.isbn) == s
  {
  }
}
