/** `protectRoute`: the middleware in front of every book route. It reads the
    bearer token from the authorization header, verifies it, loads the user
    and attaches it to the request, or answers 401. */
module Middleware {
  import opened Common
  import opened Text
  import opened Users
  import opened Tokens
  import opened Http

  const NoToken := "No authentication token,access denied"
  const TokenNotValid := "Token is not valid"
  const Unauthorized := "Unauthorized"

  const BearerPrefix := "Bearer "

  /** `header.replace("Bearer ", "")`: the first occurrence of the prefix is
      removed, wherever it stands. */
  function StripBearer(header: string): string {
    ReplaceFirst(header, BearerPrefix, "")
  }

  /** The usual header shape gives back exactly the token it carries. */
  lemma StripBearerPrefixed(token: string)
    ensures StripBearer(BearerPrefix + token) == token
  {
    var h := BearerPrefix + token;
    assert OccursAt(h, BearerPrefix, 0) by {
      assert h[0..|BearerPrefix|] == BearerPrefix;
    }
    assert FirstAt(h, BearerPrefix, 0);
    assert h[|BearerPrefix|..] == token;
  }

  /** A header without the prefix anywhere is taken as the token itself. */
  lemma StripBearerAbsent(header: string)
    requires !Contains(header, BearerPrefix)
    ensures StripBearer(header) == header
  {
  }

  /** Where the middleware ends: the caller is known, or the request is answered
      with 401 and this message. */
  datatype Outcome = Authorized(user: PublicUser) | Rejected(message: string)

  /** The decision `protectRoute` takes for a request with this authorization
      header (`None` when the header is missing). */
  function Authenticate(header: Option<string>, users: seq<User>, secret: string, now: nat): (r: Outcome)
    // reading a missing header throws and lands in the generic 401
    ensures header.None? ==> r == Rejected(Unauthorized)
    ensures header.Some? && StripBearer(header.value) == "" ==> r == Rejected(NoToken)
    ensures header.Some? && StripBearer(header.value) != "" && Verify(StripBearer(header.value), secret, now).None? ==>
      r == Rejected(Unauthorized)
    ensures r.Rejected? ==> r.message in {Unauthorized, NoToken, TokenNotValid}
    ensures r == Rejected(TokenNotValid) <==>
      header.Some? && Verify(StripBearer(header.value), secret, now).Some?
      && FindById(users, Verify(StripBearer(header.value), secret, now).value.subject).None?
    ensures r.Authorized? <==>
      header.Some? && Verify(StripBearer(header.value), secret, now).Some?
      && FindById(users, Verify(StripBearer(header.value), secret, now).value.subject).Some?
    ensures r.Authorized? ==>
      exists u :: (u in users && r.user == Public(u)
                   && u.id == Decode(StripBearer(header.value), secret).value.subject)
  {
    if header.None? then Rejected(Unauthorized)
    else
      var token := StripBearer(header.value);
      if token == "" then Rejected(NoToken)
      else match Verify(token, secret, now)
        case None => Rejected(Unauthorized)
        case Some(decoded) =>
          match FindById(users, decoded.subject)
          case None => Rejected(TokenNotValid)
          case Some(u) => Authorized(Public(u))
  }

  /** A token issued to a stored user and sent as `Bearer <token>` lets the
      request through as that user until 15 days after issue, and is refused with the
      generic 401 from then on. */
  lemma IssuedTokenAuthenticates(users: seq<User>, u: User, iat: nat, now: nat, secret: string)
    requires Unique(users) && u in users && secret != ""
    ensures var header := Some(BearerPrefix + GenerateToken(u.id, iat, secret).value);
      && (now < iat + ExpiresInSeconds ==> Authenticate(header, users, secret, now) == Authorized(Public(u)))
      && (now >= iat + ExpiresInSeconds ==> Authenticate(header, users, secret, now) == Rejected(Unauthorized))
  {
    var token := GenerateToken(u.id, iat, secret).value;
    StripBearerPrefixed(token);
    FindByIdStored(users, u);
    assert token != "" by {
      assert Decode("", secret) == None;
    }
  }

  /** A well-formed token for an id no stored user has is refused with
      "Token is not valid" while it has not expired. */
  lemma UnknownSubjectRejected(users: seq<User>, id: UserId, iat: nat, now: nat, secret: string)
    requires secret != "" && FindById(users, id).None? && now < iat + ExpiresInSeconds
    ensures Authenticate(Some(BearerPrefix + GenerateToken(id, iat, secret).value), users, secret, now)
      == Rejected(TokenNotValid)
  {
    StripBearerPrefixed(GenerateToken(id, iat, secret).value);
  }

  /** The request/response pair as the middleware sees it: the authorization
      header, the `req.user` slot, how often `next` was called, and what was
      written onto `res`. */
  class Context {
    const authorization: Option<string>
    var user: Option<PublicUser>
    var nextCalls: nat
    var reply: Option<Reply>

    constructor (authorization: Option<string>)
      ensures this.authorization == authorization
      ensures user.None? && nextCalls == 0 && reply.None?
    {
      this.authorization := authorization;
      user := None;
      nextCalls := 0;
      reply := None;
    }
  }

  /** `protectRoute(req, res, next)`. On success `req.user` is the caller
      without password and `next` is called once; on every rejection `req.user`
      is left alone, `next` is not called and 401 is written. The user store is
      only read. */
  method ProtectRoute(ctx: Context, store: UserCollection, secret: string, now: nat)
    modifies ctx
    ensures match Authenticate(ctx.authorization, store.users, secret, now)
      case Authorized(u) =>
        ctx.user == Some(u) && ctx.nextCalls == old(ctx.nextCalls) + 1 && ctx.reply == old(ctx.reply)
      case Rejected(m) =>
        ctx.user == old(ctx.user) && ctx.nextCalls == old(ctx.nextCalls) && ctx.reply == Some(Reply(401, Message(m)))
  {
    if ctx.authorization.None? {
      ctx.reply := Some(Reply(401, Message(Unauthorized)));
      return;
    }
    var token := StripBearer(ctx.authorization.value);
    if token == "" {
      ctx.reply := Some(Reply(401, Message(NoToken)));
      return;
    }
    var decoded := Verify(token, secret, now);
    if decoded.None? {
      ctx.reply := Some(Reply(401, Message(Unauthorized)));
      return;
    }
    var user := FindById(store.users, decoded.value.subject);
    if user.None? {
      ctx.reply := Some(Reply(401, Message(TokenNotValid)));
      return;
    }
    ctx.user := Some(Public(user.value));
    ctx.nextCalls := ctx.nextCalls + 1;
  }
}
