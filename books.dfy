/** The book collection and the queries the book routes run on it (the
    Mongoose `Book` model, whose own file is not part of this model). */
module Books {
  import opened Common
  import opened Users

  type BookId = nat

  /** A stored book. `owner` is the id of the user who created it (the `user`
      field); `createdAt` is the creation timestamp Mongoose stamps on save. */
  datatype Book = Book(id: BookId, title: string, caption: string, image: string, rating: int,
                       owner: UserId, createdAt: int)

  /** No two stored books share an id. */
  ghost predicate UniqueIds(books: seq<Book>) {
    forall i, j :: 0 <= i < j < |books| ==> books[i].id != books[j].id
  }

  /** `Book.findById(id)`. */
  function FindBook(books: seq<Book>, id: BookId): Option<Book> {
    First(books, (b: Book) => b.id == id)
  }

  /** `book.deleteOne()`: the collection without the document whose id is `id`. */
  function RemoveBook(books: seq<Book>, id: BookId): (r: seq<Book>)
    ensures forall b :: b in r <==> b in books && b.id != id
    ensures |r| <= |books|
    ensures (forall i :: 0 <= i < |books| ==> books[i].id != id) ==> r == books
  {
    if books == [] then []
    else if books[0].id == id then RemoveBook(books[1..], id)
    else [books[0]] + RemoveBook(books[1..], id)
  }

  lemma UniqueIdsTail(books: seq<Book>)
    requires UniqueIds(books) && books != []
    ensures UniqueIds(books[1..])
    ensures forall b :: b in books[1..] ==> b.id != books[0].id
  {
    forall b | b in books[1..] ensures b.id != books[0].id {
      var k :| 0 <= k < |books[1..]| && books[1..][k] == b;
      assert books[k + 1] == b;
    }
  }

  lemma UniqueIdsCons(b: Book, rest: seq<Book>)
    requires UniqueIds(rest) && forall x :: x in rest ==> x.id != b.id
    ensures UniqueIds([b] + rest)
  {
    forall i, j | 0 <= i < j < |[b] + rest| ensures ([b] + rest)[i].id != ([b] + rest)[j].id {
      assert ([b] + rest)[j] == rest[j - 1];
      assert rest[j - 1] in rest;
    }
  }

  /** With unique ids, removing a stored id removes exactly one document and
      keeps the ids unique. */
  lemma {:induction false} RemoveStoredBook(books: seq<Book>, id: BookId)
    requires UniqueIds(books) && FindBook(books, id).Some?
    ensures |RemoveBook(books, id)| == |books| - 1
    ensures UniqueIds(RemoveBook(books, id))
  {
    UniqueIdsTail(books);
    if books[0].id == id {
      assert FindBook(books[1..], id).None?;
      assert RemoveBook(books[1..], id) == books[1..];
    } else {
      RemoveStoredBook(books[1..], id);
      UniqueIdsCons(books[0], RemoveBook(books[1..], id));
    }
  }

  /** Newest first: createdAt never increases along the sequence. */
  ghost predicate NewestFirst(s: seq<Book>) {
    forall i, j :: 0 <= i < j < |s| ==> s[i].createdAt >= s[j].createdAt
  }

  /** Putting a book in front of a newest-first sequence of books no newer than it
      keeps the sequence newest first. */
  lemma NewestFirstCons(x: Book, s: seq<Book>)
    requires NewestFirst(s)
    requires forall y :: y in s ==> y.createdAt <= x.createdAt
    ensures NewestFirst([x] + s)
  {
    forall i, j | 0 <= i < j < |[x] + s| ensures ([x] + s)[i].createdAt >= ([x] + s)[j].createdAt {
      if i > 0 {
        assert ([x] + s)[i] == s[i - 1];
      }
      assert ([x] + s)[j] == s[j - 1];
      assert s[j - 1] in s;
    }
  }

  /** The first book of a newest-first sequence is at least as new as every
      book in it, and the rest is still newest first. */
  lemma NewestFirstHead(s: seq<Book>)
    requires NewestFirst(s) && s != []
    ensures NewestFirst(s[1..])
    ensures forall y :: y in s ==> y.createdAt <= s[0].createdAt
  {
    forall y | y in s ensures y.createdAt <= s[0].createdAt {
      var k :| 0 <= k < |s| && s[k] == y;
      assert k == 0 || s[0].createdAt >= s[k].createdAt;
    }
    forall i, j | 0 <= i < j < |s[1..]| ensures s[1..][i].createdAt >= s[1..][j].createdAt {
      assert s[1..][i] == s[i + 1] && s[1..][j] == s[j + 1];
    }
  }

  /** Every book of `r` is either `b` or one of `s`, when `r` holds `s` and `b`. */
  lemma BoundedBy(r: seq<Book>, s: seq<Book>, b: Book, t: int)
    requires multiset(r) == multiset(s) + multiset{b}
    requires b.createdAt <= t && forall y :: y in s ==> y.createdAt <= t
    ensures forall x :: x in r ==> x.createdAt <= t
  {
    forall x | x in r ensures x.createdAt <= t {
      assert x in multiset(r);
      assert x == b || x in multiset(s);
    }
  }

  function Insert(b: Book, s: seq<Book>): (r: seq<Book>)
    requires NewestFirst(s)
    ensures NewestFirst(r)
    ensures multiset(r) == multiset(s) + multiset{b}
    ensures |r| == |s| + 1
  {
    if s == [] then [b]
    else if b.createdAt >= s[0].createdAt then
      NewestFirstHead(s);
      NewestFirstCons(b, s);
      [b] + s
    else
      NewestFirstHead(s);
      var rest := Insert(b, s[1..]);
      BoundedBy(rest, s[1..], b, s[0].createdAt);
      NewestFirstCons(s[0], rest);
      assert s == [s[0]] + s[1..];
      [s[0]] + rest
  }

  lemma SameMembers(a: seq<Book>, b: seq<Book>)
    requires multiset(a) == multiset(b)
    ensures forall x :: x in a <==> x in b
  {
    forall x ensures x in a <==> x in b {
      assert x in a <==> x in multiset(a);
      assert x in b <==> x in multiset(b);
    }
  }

  /** `.sort({ createdAt: -1 })`: the books newest first; books created at the
      same time keep their stored order. */
  function ByNewest(books: seq<Book>): (r: seq<Book>)
    ensures NewestFirst(r)
    ensures multiset(r) == multiset(books)
    ensures forall b :: b in r <==> b in books
    ensures |r| == |books|
  {
    if books == [] then []
    else
      assert books == [books[0]] + books[1..];
      var r := Insert(books[0], ByNewest(books[1..]));
      SameMembers(r, books);
      r
  }

  /** `Book.find({ user: owner })`: the stored books of one owner, in stored order. */
  function OwnedBy(books: seq<Book>, owner: UserId): (r: seq<Book>)
    ensures forall b :: b in r <==> b in books && b.owner == owner
    ensures forall x :: multiset(r)[x] == if x.owner == owner then multiset(books)[x] else 0
    ensures |r| <= |books|
  {
    if books == [] then []
    else
      assert books == [books[0]] + books[1..];
      if books[0].owner == owner then [books[0]] + OwnedBy(books[1..], owner)
    else OwnedBy(books[1..], owner)
  }

  /** The collection as a mutable store: books in insertion order, and the
      next id to hand out. */
  class BookCollection {
    var books: seq<Book>
    var nextId: BookId

    ghost predicate Valid()
      reads this
    {
      UniqueIds(books) && forall i :: 0 <= i < |books| ==> books[i].id < nextId
    }

    constructor ()
      ensures Valid() && books == [] && nextId == 0
    {
      books := [];
      nextId := 0;
    }

    /** `new Book({...}).save()`: store a book under a fresh id. */
    method Save(title: string, caption: string, image: string, rating: int, owner: UserId, createdAt: int)
      returns (b: Book)
      requires Valid()
      modifies this
      ensures Valid()
      ensures b == Book(old(nextId), title, caption, image, rating, owner, createdAt)
      ensures books == old(books) + [b] && FindBook(old(books), b.id).None?
    {
      b := Book(nextId, title, caption, image, rating, owner, createdAt);
      books := books + [b];
      nextId := nextId + 1;
    }

    /** `book.deleteOne()` on a stored book. */
    method DeleteOne(id: BookId)
      requires Valid() && FindBook(books, id).Some?
      modifies this
      ensures Valid()
      ensures books == RemoveBook(old(books), id) && |books| == |old(books)| - 1
      ensures nextId == old(nextId)
    {
      RemoveStoredBook(books, id);
      books := RemoveBook(books, id);
    }
  }
}
