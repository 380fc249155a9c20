# Book-sharing API: request handling, modelled in Dafny

This project models the request-handling core of a small Express/MongoDB
book-sharing API:

- the `/api/auth` routes (`/register`, `/login`) and `generateToken`;
- the `protectRoute` middleware that guards every book route;
- the `/api/books` routes: create, the paginated feed, the caller's own books,
  and delete with its ownership check and image clean-up.

The database, the JWT library, the password hasher and the image host are
replaced by in-memory state and parameters:

- The two Mongo collections are classes holding a `seq` in insertion order
  (`Users.UserCollection`, `Books.BookCollection`). Each also holds a counter
  that hands out fresh ids in place of ObjectIds. `findOne`/`findById` return
  the first match.
- A session token is the payload `Token(subject, issuedAt, expiresAt)` in
  seconds, with `expiresAt = issuedAt + 15 days`. It is serialised as
  `<subject>.<iat>.<exp>.<tag>`, where the tag is the signing secret. Decoding
  under the same secret is proved to give the payload back; decoding under
  another secret fails. `jwt.verify` accepts a token while `now < exp`.
  An empty secret makes signing and verifying throw, as jsonwebtoken does.
- The password hasher's output for a request is a parameter (`hashed`).
  `comparePassword` is a function parameter `matches(candidate, stored)`.
- The image upload is a parameter `uploaded: Option<string>`: the hosted URL,
  or `None` when the upload throws. Delete returns the public id it asked the
  host to destroy. A failed destroy is swallowed by the source, so it has no
  effect on the model.
- The clock is a parameter `now`. Express's `req`/`res`/`next` for the
  middleware is the class `Middleware.Context`, with the header, the
  `req.user` slot, a count of `next` calls and the written reply.

Pure logic (validation chains, token handling, pagination arithmetic, string
handling, query results) is made of functions and lemmas. Handlers that
change a collection (`Register`, `Create`, `Delete`) and the middleware
(`ProtectRoute`) are methods. Their `ensures` tie the new state and the reply
to those functions.

Two behaviours of the code that the model keeps as written:

- The 401 messages differ by cause. A missing header and a token that fails
  verification both give "Unauthorized". A verified token whose user is not
  stored gives "Token is not valid". An empty token gives "No authentication
  token,access denied".
- The non-owner delete answers 401, not 403.

## Model

| member | source | states |
|---|---|---|
| `Text.ReplaceFirst` | src/middleware/auth.middleware.js:8 | `replace` with a string pattern rewrites only the first occurrence; when the pattern does not occur, the string is unchanged |
| `Text.Contains` | src/routes/bookRoutes.js:87 | `includes` holds exactly when the pattern occurs at some index |
| `Text.AfterLast` | src/routes/bookRoutes.js:89 | `split("/").pop()` is the suffix after the last separator; it holds no separator, and the whole string comes back when there is none |
| `Text.BeforeFirst` | src/routes/bookRoutes.js:89 | `split(".")[0]` is the prefix before the first separator; it holds no separator |
| `Numbers.IntOr` | src/routes/bookRoutes.js:39-40 | the `parseInt` result with its fallback: missing, unparseable or zero input gives the default; otherwise the parsed value; the result is never 0 |
| `Numbers.JsParseIntOfNat` | src/routes/bookRoutes.js:39-40 | `parseInt` reads a decimal numeral back to its value |
| `Numbers.ParseNatToString` | src/routes/authRoutes.js:7-11 | the numerals in a signed token read back to the numbers written |
| `Common.First` | src/routes/authRoutes.js:34-41 | the lookups `findOne({email})`, `findOne({username})` and `findById` return a stored record that matches, and return nothing exactly when no stored record matches |
| `Common.FirstOnly` | src/middleware/auth.middleware.js:16 | when exactly one stored record matches, the lookup returns it |
| `Users.FindByIdStored` | src/middleware/auth.middleware.js:16 | in a store without duplicates, looking up a stored user's id finds that user |
| `Users.FindByEmailStored` | src/routes/authRoutes.js:78 | in a store without duplicates, looking up a stored user's email finds that user |
| `Users.UniqueAppend` | src/routes/authRoutes.js:34-53 | appending a user whose id, email and username are free keeps ids, emails and usernames unique |
| `Users.UserCollection.Save` | src/routes/authRoutes.js:47-53 | saving appends exactly one user under a fresh id and keeps the uniqueness invariant |
| `Tokens.GenerateToken` | src/routes/authRoutes.js:7-11 | a token is issued exactly when a secret is configured; it decodes to payload `{id}` issued `now` and expiring 15 days later |
| `Tokens.DecodeSign` | src/routes/authRoutes.js:7-11 | a token signed with a secret decodes under that secret to the payload signed |
| `Tokens.DecodeOtherSecret` | src/middleware/auth.middleware.js:13 | a token signed with one secret does not decode under another |
| `Tokens.Verify` | src/middleware/auth.middleware.js:13 | verification succeeds exactly when the token decodes under the secret and `now` is before its expiry |
| `Tokens.VerifyIssued` | src/routes/authRoutes.js:7-11 | an issued token verifies, to the subject it was issued for, exactly while the clock is before 15 days after issue (there is no lower bound on the clock) |
| `AuthRoutes.RegisterCheck` | src/routes/authRoutes.js:17-41 | the validation chain accepts exactly when all fields are present, the password has 6+ characters, the username 3+, and neither email nor username is taken; every rejection is 400; a missing field is reported first, the password length before the username length, and a taken email before a taken username |
| `AuthRoutes.Register` | src/routes/authRoutes.js:13-69 | a rejected registration changes nothing; an accepted one appends exactly one user with the DiceBear avatar seeded by the username, keeps emails and usernames unique, and answers 201 with a token for the new id (500, with the user kept, when no token can be signed) |
| `AuthRoutes.Login` | src/routes/authRoutes.js:71-103 | 400 exactly for a missing field, 404 exactly for an unknown email, 401 exactly for a wrong password (both "Invalid credentials."), each rejection with its message ("All fields are required." for 400, "internal Server error." for 500); 500 exactly when no token can be signed; 200 carries the matched user without password and a token for that user's id; the store is only read |
| `AuthRoutes.LoginAfterRegister` | src/routes/authRoutes.js:44-98 | after a registration, logging in with the same email and an accepted password gives 200 with the same user and a token for the same subject as the registration token |
| `AuthRoutes.LoginWrongPassword` | src/routes/authRoutes.js:83-86 | a stored email with a password the comparison rejects gives 401 "Invalid credentials." |
| `Middleware.StripBearerPrefixed` | src/middleware/auth.middleware.js:8 | a header `"Bearer " + t` yields exactly `t` |
| `Middleware.StripBearerAbsent` | src/middleware/auth.middleware.js:8 | a header without `"Bearer "` is taken whole as the token |
| `Middleware.Authenticate` | src/middleware/auth.middleware.js:6-25 | a missing header gives 401 "Unauthorized"; an empty token gives "No authentication token,access denied"; a token that fails verification gives "Unauthorized"; a verified token whose subject is not stored gives exactly "Token is not valid"; the request is authorized exactly when the token verifies and its subject is stored, and the attached user is that stored user without password |
| `Middleware.IssuedTokenAuthenticates` | src/middleware/auth.middleware.js:8-21 | `Bearer <issued token>` for a stored user authorizes as that user until 15 days after issue and gives the generic 401 after that |
| `Middleware.UnknownSubjectRejected` | src/middleware/auth.middleware.js:16-18 | an unexpired, well-signed token for an id no user has gives "Token is not valid" |
| `Middleware.ProtectRoute` | src/middleware/auth.middleware.js:6-25 | on success `req.user` is set to the authenticated user and `next` is called exactly once, with no reply written; on every rejection `req.user` is untouched, `next` is not called and 401 with the decision's message is written; the user store is not modified |
| `Books.RemoveBook` | src/routes/bookRoutes.js:95 | deleting keeps exactly the books whose id differs from the deleted one; an absent id changes nothing |
| `Books.RemoveStoredBook` | src/routes/bookRoutes.js:95 | with unique ids, deleting a stored id removes exactly one book and ids stay unique |
| `Books.ByNewest` | src/routes/bookRoutes.js:43-44 | the sort returns a permutation of the books with `createdAt` non-increasing |
| `Books.OwnedBy` | src/routes/bookRoutes.js:66 | the owner filter keeps exactly the books of that owner, each as often as it is stored, and no other |
| `Books.BookCollection.Save` | src/routes/bookRoutes.js:19-28 | saving appends exactly one book under a fresh id |
| `Books.BookCollection.DeleteOne` | src/routes/bookRoutes.js:95 | deleting a stored book removes exactly it and keeps ids unique |
| `BookRoutes.Create` | src/routes/bookRoutes.js:9-34 | a missing or falsy image, title, caption or rating (including `""` and 0) gives 400 and saves nothing; a failed upload gives 500 and saves nothing; otherwise exactly one book is saved, owned by the caller and holding the hosted URL, and returned with 201 |
| `BookRoutes.Settings` | src/routes/bookRoutes.js:39-40 | page and limit default to 1 and 5 when absent and are never 0 |
| `BookRoutes.TotalPages` | src/routes/bookRoutes.js:55 | `Math.ceil(totalBooks / limit)`: for a positive limit `(r-1)*limit < totalBooks <= r*limit`, and the mirrored bounds for a negative one |
| `BookRoutes.TotalPagesBounds` | src/routes/bookRoutes.js:55 | for a positive limit the page count is non-negative and is 0 exactly when there are no books |
| `BookRoutes.PageOf` | src/routes/bookRoutes.js:45-46 | skip-then-limit returns at most `count` books, the ones at positions `skip`, `skip+1`, … of the sorted listing |
| `BookRoutes.ListBooks` | src/routes/bookRoutes.js:37-61 | a negative skip gives 500; otherwise 200 with exactly min(|limit|, size − skip) books (none when the skip reaches the size) taken from the newest-first listing starting at `(page-1)*limit`, `currentPage` = page, `totalBooks` = collection size, `totalPages` = ceiling of size / limit |
| `BookRoutes.ListBooksDefaults` | src/routes/bookRoutes.js:39-47 | without query parameters the answer is page 1 holding the five newest books (all of them when fewer) |
| `BookRoutes.PageNonEmptyIff` | src/routes/bookRoutes.js:41-55 | with a positive limit, page `p >= 1` holds books exactly when `p <= totalPages` |
| `BookRoutes.UserBooks` | src/routes/bookRoutes.js:64-74 | the answer holds exactly the caller's books, newest first, each as often as stored |
| `BookRoutes.PublicId` | src/routes/bookRoutes.js:89 | the public id contains neither `/` nor `.`; it is the part of the URL's last path segment before its first dot |
| `BookRoutes.DestroyTarget` | src/routes/bookRoutes.js:87-90 | a destroy is attempted exactly when the image URL is non-empty and contains "cloudinary", and it is given the URL's public id |
| `BookRoutes.Delete` | src/routes/bookRoutes.js:77-101 | an unknown id gives 404, and a caller who is not the owner gives 401; both leave the store unchanged and destroy nothing; the owner's delete removes exactly that book (one fewer, the others kept), answers 200 and attempts the destroy as `DestroyTarget` says |
| `BookRoutes.DeleteKeepsOthers` | src/routes/bookRoutes.js:95 | every other stored book survives a delete |
| `BookRoutes.CreateRoute` | src/routes/bookRoutes.js:9 | behind `protectRoute`, a rejected request gets the 401 and saves nothing; an authorized valid request saves one book owned by the authenticated user |
| `BookRoutes.DeleteRoute` | src/routes/bookRoutes.js:77 | behind `protectRoute`, a rejected request gets the 401, deletes nothing and destroys nothing; a book disappears only when the authenticated caller owns it |

## Left out

- Process bootstrap (`src/index.js`: Express setup, CORS, body parsers, `listen`, the cron job, the database connection): plumbing with no behaviour to state.
- The cryptography of JWT and of password hashing. The token tag is the secret itself, so the model does not capture that a signature cannot be forged or that the secret stays hidden. The hash and the comparison are parameters.
- The image host. Upload is a parameter; destroy is the public id the route asks for, and its result is ignored as the source ignores it.
- Mongo query mechanics: `populate` on the feed (the owner stays an id), the `select`/projection machinery, `countDocuments` (the collection size), cast errors for malformed ids (ids are naturals), and schema validation on save (`src/models` is not part of this model).
- Ties in `createdAt`: Mongo leaves their order open; the model keeps stored order.
- A negative skip is modelled as the store rejecting the query (the 500 path), and a negative limit as its absolute value. The exact behaviour of the store's driver is not modelled further.
- `parseInt` is modelled for strings; array- or object-valued query parameters and numbers beyond double precision are not.
- Request fields are strings (the rating an integer). JSON values of other types in those fields are not modelled, and string lengths count characters, not UTF-16 code units.
- Concurrency: register checks and then writes without atomicity, so the uniqueness guarantee holds only for requests handled one after another, which is what the model covers.
- The 500 catch-all paths for database failures. Logging.
