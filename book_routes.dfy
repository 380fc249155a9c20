/** The `/api/books` routes: create, the paginated feed, the caller's own
    books, and delete with its ownership guard. Every route runs behind
    `protectRoute`; the handlers receive the user it attached. */
module BookRoutes {
  import opened Common
  import opened Text
  import opened Numbers
  import opened Users
  import opened Books
  import opened Http
  import opened Middleware

  const FieldsRequired := "All fields are required"
  const InternalError := "Internal server error"
  const BookNotFound := "Book not found"
  const BookDeleted := "Book deleted successfully"

  const DefaultPage := 1
  const DefaultLimit := 5

  /** The request body of the create route; a field may be missing. */
  datatype CreateBody = CreateBody(title: Option<string>, caption: Option<string>, image: Option<string>,
                                   rating: Option<int>)

  /** `image && title && caption && rating` in JavaScript: no field missing,
      no string empty, and a rating other than 0. */
  predicate CreateFieldsPresent(b: CreateBody) {
    Truthy(b.image) && Truthy(b.title) && Truthy(b.caption) && b.rating.Some? && b.rating.value != 0
  }

  /** POST `/`. `uploaded` is the `secure_url` the image host answers for the
      uploaded image, `None` when the upload throws; `now` is the save time.
      A rejected or failed request saves nothing; a successful one saves
      exactly one book, owned by the caller, holding the hosted image URL. */
  method Create(books: BookCollection, caller: PublicUser, body: CreateBody, uploaded: Option<string>, now: int)
    returns (reply: Reply)
    requires books.Valid()
    modifies books
    ensures books.Valid()
    ensures !CreateFieldsPresent(body) ==>
      reply == Reply(400, Message(FieldsRequired)) && books.books == old(books.books) && books.nextId == old(books.nextId)
    ensures CreateFieldsPresent(body) && uploaded.None? ==>
      reply == Reply(500, Message(InternalError)) && books.books == old(books.books) && books.nextId == old(books.nextId)
    ensures CreateFieldsPresent(body) && uploaded.Some? ==>
      var b := Book(old(books.nextId), body.title.value, body.caption.value, uploaded.value, body.rating.value,
                    caller.id, now);
      && books.books == old(books.books) + [b]
      && FindBook(old(books.books), b.id).None?
      && reply == Reply(201, Saved(b))
  {
    if !Truthy(body.image) || !Truthy(body.title) || !Truthy(body.caption) || body.rating.None? || body.rating.value == 0 {
      return Reply(400, Message(FieldsRequired));
    }
    if uploaded.None? {
      return Reply(500, Message(InternalError));
    }
    var saved := books.Save(body.title.value, body.caption.value, uploaded.value, body.rating.value, caller.id, now);
    reply := Reply(201, Saved(saved));
  }

  /** `Math.ceil(totalBooks / limit)`, computed exactly, for either sign of `limit`. */
  function TotalPages(totalBooks: nat, limit: int): (r: int)
    requires limit != 0
    ensures limit > 0 ==> (r - 1) * limit < totalBooks <= r * limit
    ensures limit < 0 ==> r * limit <= totalBooks < (r - 1) * limit
  {
    if limit > 0 then
      var q := totalBooks / limit;
      if q * limit == totalBooks then q else q + 1
    else
      -(totalBooks / -limit)
  }

  /** For a positive limit the page count is 0 exactly when there are no books,
      and the books exactly fill all pages but the last. */
  lemma TotalPagesBounds(totalBooks: nat, limit: int)
    requires limit > 0
    ensures TotalPages(totalBooks, limit) >= 0
    ensures TotalPages(totalBooks, limit) == 0 <==> totalBooks == 0
    ensures totalBooks > 0 ==> (TotalPages(totalBooks, limit) - 1) * limit < totalBooks <= TotalPages(totalBooks, limit) * limit
  {
  }

  /** `.skip(skip).limit(count)` on an already sorted result. */
  function PageOf(sorted: seq<Book>, skip: nat, count: nat): (r: seq<Book>)
    ensures |r| == if skip >= |sorted| then 0 else if count < |sorted| - skip then count else |sorted| - skip
    ensures forall i :: 0 <= i < |r| ==> r[i] == sorted[skip + i]
  {
    if skip >= |sorted| then []
    else if count < |sorted| - skip then sorted[skip..skip + count]
    else sorted[skip..]
  }

  /** The page and limit the feed works with: `parseInt(...) || 1` and
      `parseInt(...) || 5`. Neither is ever 0. */
  datatype PageSettings = PageSettings(page: int, limit: int)

  function Settings(pageQuery: Option<string>, limitQuery: Option<string>): (s: PageSettings)
    ensures s.page != 0 && s.limit != 0
    ensures pageQuery.None? ==> s.page == DefaultPage
    ensures limitQuery.None? ==> s.limit == DefaultLimit
  {
    PageSettings(IntOr(pageQuery, DefaultPage), IntOr(limitQuery, DefaultLimit))
  }

  /** `(page - 1) * limit`: how many of the sorted books come before the page. */
  function Skip(s: PageSettings): int {
    (s.page - 1) * s.limit
  }

  /** How many books a page holds at most: the store reads a negative limit as
      its absolute value. */
  function PageSize(s: PageSettings): nat {
    if s.limit < 0 then -s.limit else s.limit
  }

  /** GET `/?page&limit`. The store refuses a negative skip, which ends in the
      handler's 500; otherwise the answer is the page of the newest-first
      listing that starts at the skip, with the page number, the size of the
      whole collection and the page count. */
  function ListBooks(books: seq<Book>, pageQuery: Option<string>, limitQuery: Option<string>): (r: Reply)
    ensures var s := Settings(pageQuery, limitQuery);
      && (r.status == 200 <==> Skip(s) >= 0)
      && (r.status != 200 ==> r == Reply(500, Message(InternalError)))
      && (r.status == 200 ==>
            && r.body.Page?
            && r.body.currentPage == s.page
            && r.body.totalBooks == |books|
            && r.body.totalPages == TotalPages(|books|, s.limit)
            && |r.body.books| == (if Skip(s) >= |books| then 0
                                  else if PageSize(s) < |books| - Skip(s) then PageSize(s)
                                  else |books| - Skip(s))
            && forall i :: 0 <= i < |r.body.books| ==> r.body.books[i] == ByNewest(books)[Skip(s) + i])
  {
    var s := Settings(pageQuery, limitQuery);
    var skip := Skip(s);
    if skip < 0 then Reply(500, Message(InternalError))
    else
      var sorted := ByNewest(books);
      var page := PageOf(sorted, skip, PageSize(s));
      assert |sorted| == |books|;
      Reply(200, Page(page, s.page, |books|, TotalPages(|books|, s.limit)))
  }

  /** Without query parameters the feed is the first page of five: the five
      newest books (all of them when there are fewer). */
  lemma ListBooksDefaults(books: seq<Book>)
    ensures var r := ListBooks(books, None, None);
      && r.status == 200 && r.body.currentPage == 1
      && r.body.books == ByNewest(books)[..if |books| < 5 then |books| else 5]
      && r.body.totalPages == TotalPages(|books|, 5)
  {
    var s := Settings(None, None);
    assert s == PageSettings(1, 5) && Skip(s) == 0 && PageSize(s) == 5;
    var n := if |books| < 5 then |books| else 5;
    var page := PageOf(ByNewest(books), 0, 5);
    assert page == ByNewest(books)[..n] by {
      assert |page| == n;
    }
  }

  lemma MulMonotone(a: int, b: int, k: int)
    requires a <= b && k > 0
    ensures a * k <= b * k
  {
    assert b * k - a * k == (b - a) * k;
  }

  /** The pages before page `page` stop short of `n` books exactly when
      `page <= r`, for `r` the ceiling of `n / limit`. */
  lemma SkipBelowTotal(page: int, limit: int, n: nat, r: int)
    requires page >= 1 && limit > 0
    requires (r - 1) * limit < n <= r * limit
    ensures (page - 1) * limit < n <==> page <= r
  {
    if page <= r {
      MulMonotone(page - 1, r - 1, limit);
    } else {
      MulMonotone(r, page - 1, limit);
    }
  }

  /** With a positive limit, a page from 1 on holds books exactly when its
      number does not exceed `totalPages`: the page count announces precisely
      the pages that are non-empty. */
  lemma PageNonEmptyIff(books: seq<Book>, s: PageSettings)
    requires s.page >= 1 && s.limit > 0
    ensures Skip(s) >= 0
    ensures |PageOf(ByNewest(books), Skip(s), PageSize(s))| > 0 <==> s.page <= TotalPages(|books|, s.limit)
  {
    var skip := Skip(s);
    MulMonotone(0, s.page - 1, s.limit);
    SkipBelowTotal(s.page, s.limit, |books|, TotalPages(|books|, s.limit));
    assert |ByNewest(books)| == |books|;
    assert PageSize(s) == s.limit;
  }

  /** GET `/user`: the caller's books, newest first. */
  function UserBooks(books: seq<Book>, caller: PublicUser): (r: Reply)
    ensures r.status == 200 && r.body.Listing?
    ensures NewestFirst(r.body.books)
    ensures forall b :: b in r.body.books <==> b in books && b.owner == caller.id
    ensures multiset(r.body.books) == multiset(OwnedBy(books, caller.id))
    ensures forall x :: multiset(r.body.books)[x] == if x.owner == caller.id then multiset(books)[x] else 0
  {
    Reply(200, Listing(ByNewest(OwnedBy(books, caller.id))))
  }

  /** `url.split("/").pop().split(".")[0]`: the last path segment of the image
      URL, up to its first dot. */
  function PublicId(url: string): (r: string)
    ensures '/' !in r && '.' !in r
    ensures var segment := AfterLast(url, '/');
      |r| <= |segment| && r == segment[..|r|] && (|r| < |segment| ==> segment[|r|] == '.')
  {
    BeforeFirst(AfterLast(url, '/'), '.')
  }

  /** The image the delete route asks the host to destroy: only a non-empty URL
      mentioning "cloudinary" has one. */
  function DestroyTarget(image: string): (r: Option<string>)
    ensures r.Some? <==> image != "" && Contains(image, "cloudinary")
    ensures r.Some? ==> r.value == PublicId(image)
  {
    if image != "" && Contains(image, "cloudinary") then Some(PublicId(image)) else None
  }

  /** The ownership guard: only the user recorded as owner may mutate a book. */
  predicate MayMutate(owner: UserId, caller: UserId) {
    owner == caller
  }

  /** DELETE `/:id`. Besides the reply, `destroyed` is the public id the route
      asked the image host to destroy, if any; a failed destroy is swallowed
      and does not stop the deletion. An unknown id gives 404 and a caller who
      is not the owner 401, both without touching the store or the host. */
  method Delete(books: BookCollection, caller: PublicUser, id: BookId) returns (reply: Reply, destroyed: Option<string>)
    requires books.Valid()
    modifies books
    ensures books.Valid() && books.nextId == old(books.nextId)
    ensures FindBook(old(books.books), id).None? ==>
      reply == Reply(404, Message(BookNotFound)) && destroyed.None? && books.books == old(books.books)
    ensures FindBook(old(books.books), id).Some? && !MayMutate(FindBook(old(books.books), id).value.owner, caller.id) ==>
      reply == Reply(401, Message(Unauthorized)) && destroyed.None? && books.books == old(books.books)
    ensures FindBook(old(books.books), id).Some? && MayMutate(FindBook(old(books.books), id).value.owner, caller.id) ==>
      && reply == Reply(200, Message(BookDeleted))
      && destroyed == DestroyTarget(FindBook(old(books.books), id).value.image)
      && books.books == RemoveBook(old(books.books), id)
      && |books.books| == |old(books.books)| - 1
  {
    var book := FindBook(books.books, id);
    if book.None? {
      return Reply(404, Message(BookNotFound)), None;
    }
    if book.value.owner != caller.id {
      return Reply(401, Message(Unauthorized)), None;
    }
    destroyed := None;
    if book.value.image != "" && Contains(book.value.image, "cloudinary") {
      destroyed := Some(PublicId(book.value.image));
    }
    books.DeleteOne(id);
    reply := Reply(200, Message(BookDeleted));
  }

  /** Deleting a book leaves every other stored book in place. */
  lemma DeleteKeepsOthers(books: seq<Book>, id: BookId, other: Book)
    requires other in books && other.id != id
    ensures other in RemoveBook(books, id)
  {
  }

  /** The create route as mounted: `protectRoute`, then the handler when `next`
      was called. A rejected request writes 401 and leaves the books alone. */
  method CreateRoute(ctx: Context, users: UserCollection, books: BookCollection, body: CreateBody,
                     uploaded: Option<string>, secret: string, now: nat)
    requires books.Valid() && ctx.nextCalls == 0
    modifies ctx, books
    ensures books.Valid()
    ensures Authenticate(ctx.authorization, users.users, secret, now).Rejected? ==>
      && ctx.reply == Some(Reply(401, Message(Authenticate(ctx.authorization, users.users, secret, now).message)))
      && books.books == old(books.books)
    ensures Authenticate(ctx.authorization, users.users, secret, now).Authorized? && CreateFieldsPresent(body) && uploaded.Some? ==>
      |books.books| == |old(books.books)| + 1
      && books.books[|books.books| - 1].owner == Authenticate(ctx.authorization, users.users, secret, now).user.id
  {
    ProtectRoute(ctx, users, secret, now);
    if ctx.nextCalls == 1 {
      var reply := Create(books, ctx.user.value, body, uploaded, now);
      ctx.reply := Some(reply);
    }
  }

  /** The delete route as mounted: `protectRoute`, then the handler. A
      rejected request writes 401, deletes nothing and destroys no image. */
  method DeleteRoute(ctx: Context, users: UserCollection, books: BookCollection, id: BookId, secret: string, now: nat)
    returns (destroyed: Option<string>)
    requires books.Valid() && ctx.nextCalls == 0
    modifies ctx, books
    ensures books.Valid()
    ensures Authenticate(ctx.authorization, users.users, secret, now).Rejected? ==>
      && ctx.reply == Some(Reply(401, Message(Authenticate(ctx.authorization, users.users, secret, now).message)))
      && books.books == old(books.books) && destroyed.None?
    ensures |books.books| < |old(books.books)| ==>
      var caller := Authenticate(ctx.authorization, users.users, secret, now);
      caller.Authorized? && FindBook(old(books.books), id).Some?
      && FindBook(old(books.books), id).value.owner == caller.user.id
  {
    destroyed := None;
    ProtectRoute(ctx, users, secret, now);
    if ctx.nextCalls == 1 {
      var reply;
      reply, destroyed := Delete(books, ctx.user.value, id);
      ctx.reply := Some(reply);
    }
  }
}
