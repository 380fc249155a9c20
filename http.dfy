/** What a handler writes onto `res`: a status code and a JSON body. */
module Http {
  import opened Users
  import opened Books

  datatype Body =
    | Message(text: string)                                  // { message }
    | Session(token: string, user: PublicUser)               // { token, user }
    | Saved(book: Book)                                      // the saved document
    | Page(books: seq<Book>, currentPage: int, totalBooks: nat, totalPages: int)
    | Listing(books: seq<Book>)                              // a bare array

  datatype Reply = Reply(status: nat, body: Body)
}
