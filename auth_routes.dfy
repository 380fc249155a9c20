/** The `/api/auth` routes: `/register` and `/login`. */
module AuthRoutes {
  import opened Common
  import opened Users
  import opened Tokens
  import opened Http

  const FieldsRequired := "All fields are required."
  const PasswordTooShort := "Password must be at least 6 characters long."
  const UsernameTooShort := "Username must be at least 3 characters long."
  const EmailExists := "Email already exists."
  const UsernameExists := "Username already exists."
  const InvalidCredentials := "Invalid credentials."
  const InternalError := "internal Server error."

  const MinPasswordLength := 6
  const MinUsernameLength := 3

  /** The default avatar: a DiceBear image seeded with the username. */
  const AvatarBase := "https://api.dicebear.com/9.x/avataaars/svg?seed="

  /** The request body of `/register`; a field may be missing. */
  datatype RegisterBody = RegisterBody(email: Option<string>, username: Option<string>, password: Option<string>)

  /** The request body of `/login`. */
  datatype LoginBody = LoginBody(email: Option<string>, password: Option<string>)

  /** Every field is present and long enough, and neither the email nor the
      username belongs to a stored user. */
  predicate RegisterAcceptable(users: seq<User>, b: RegisterBody) {
    && Truthy(b.email) && Truthy(b.username) && Truthy(b.password)
    && |b.password.value| >= MinPasswordLength
    && |b.username.value| >= MinUsernameLength
    && FindByEmail(users, b.email.value).None?
    && FindByUsername(users, b.username.value).None?
  }

  /** The validation chain of `/register`, in the order the handler runs it:
      the rejection it answers with, or `None` when the user may be created. */
  function RegisterCheck(users: seq<User>, b: RegisterBody): (r: Option<Reply>)
    ensures r.None? <==> RegisterAcceptable(users, b)
    ensures r.Some? ==> r.value.status == 400 && r.value.body.Message?
    // a missing or empty field is reported before anything else
    ensures !(Truthy(b.email) && Truthy(b.username) && Truthy(b.password)) ==>
      r == Some(Reply(400, Message(FieldsRequired)))
    // the password length is checked before the username length
    ensures Truthy(b.email) && Truthy(b.username) && Truthy(b.password) && |b.password.value| < MinPasswordLength ==>
      r == Some(Reply(400, Message(PasswordTooShort)))
    ensures r == Some(Reply(400, Message(UsernameTooShort))) <==>
      Truthy(b.email) && Truthy(b.username) && Truthy(b.password)
      && |b.password.value| >= MinPasswordLength && |b.username.value| < MinUsernameLength
    // a taken email is reported even when the username is taken too
    ensures r == Some(Reply(400, Message(EmailExists))) <==>
      Truthy(b.email) && Truthy(b.username) && Truthy(b.password)
      && |b.password.value| >= MinPasswordLength && |b.username.value| >= MinUsernameLength
      && FindByEmail(users, b.email.value).Some?
    ensures r == Some(Reply(400, Message(UsernameExists))) <==>
      Truthy(b.email) && Truthy(b.username) && Truthy(b.password)
      && |b.password.value| >= MinPasswordLength && |b.username.value| >= MinUsernameLength
      && FindByEmail(users, b.email.value).None? && FindByUsername(users, b.username.value).Some?
  {
    if !Truthy(b.email) || !Truthy(b.username) || !Truthy(b.password) then Some(Reply(400, Message(FieldsRequired)))
    else if |b.password.value| < MinPasswordLength then Some(Reply(400, Message(PasswordTooShort)))
    else if |b.username.value| < MinUsernameLength then Some(Reply(400, Message(UsernameTooShort)))
    else if FindByEmail(users, b.email.value).Some? then Some(Reply(400, Message(EmailExists)))
    else if FindByUsername(users, b.username.value).Some? then Some(Reply(400, Message(UsernameExists)))
    else None
  }

  /** The user `/register` creates from an acceptable body under id `id`. */
  function NewUser(id: UserId, b: RegisterBody, hashed: string): (u: User)
    requires Truthy(b.email) && Truthy(b.username)
  {
    User(id, b.email.value, b.username.value, hashed, AvatarBase + b.username.value)
  }

  /** What `/register` answers once the user is saved: 201 with a token and the
      user without its password, or 500 when no token can be signed (the user
      stays saved). */
  function Registered(u: User, now: nat, secret: string): Reply {
    match GenerateToken(u.id, now, secret)
    case None => Reply(500, Message(InternalError))
    case Some(token) => Reply(201, Session(token, Public(u)))
  }

  /** POST `/register`. `hashed` is what the password hasher makes of the
      password for this request; `now` is the clock, in seconds. A rejected
      request leaves the store as it was; an accepted one appends exactly one
      user, and the store stays free of duplicate emails and usernames. */
  method Register(store: UserCollection, body: RegisterBody, hashed: string, now: nat, secret: string)
    returns (reply: Reply)
    requires store.Valid()
    modifies store
    ensures store.Valid()
    ensures RegisterCheck(old(store.users), body).Some? ==>
      reply == RegisterCheck(old(store.users), body).value
      && store.users == old(store.users) && store.nextId == old(store.nextId)
    ensures RegisterCheck(old(store.users), body).None? ==>
      var u := NewUser(old(store.nextId), body, hashed);
      && store.users == old(store.users) + [u]
      && FindById(old(store.users), u.id).None?
      && reply == Registered(u, now, secret)
  {
    if !Truthy(body.email) || !Truthy(body.username) || !Truthy(body.password) {
      return Reply(400, Message(FieldsRequired));
    }
    var email, username, password := body.email.value, body.username.value, body.password.value;
    if |password| < MinPasswordLength {
      return Reply(400, Message(PasswordTooShort));
    }
    if |username| < MinUsernameLength {
      return Reply(400, Message(UsernameTooShort));
    }
    if FindByEmail(store.users, email).Some? {
      return Reply(400, Message(EmailExists));
    }
    if FindByUsername(store.users, username).Some? {
      return Reply(400, Message(UsernameExists));
    }
    var profileImage := AvatarBase + username;
    var user := store.Save(email, username, hashed, profileImage);
    var token := GenerateToken(user.id, now, secret);
    if token.None? {
      return Reply(500, Message(InternalError));
    }
    reply := Reply(201, Session(token.value, Public(user)));
  }

  /** POST `/login`. `matches(candidate, stored)` is the password comparison
      of the user model. Login only reads the store. */
  function Login(users: seq<User>, b: LoginBody, matches: (string, string) -> bool, now: nat, secret: string)
    : (r: Reply)
    ensures r.status == 400 <==> !Truthy(b.email) || !Truthy(b.password)
    ensures r.status == 404 <==> Truthy(b.email) && Truthy(b.password) && FindByEmail(users, b.email.value).None?
    ensures r.status == 401 <==>
      Truthy(b.email) && Truthy(b.password) && FindByEmail(users, b.email.value).Some?
      && !matches(b.password.value, FindByEmail(users, b.email.value).value.password)
    ensures r.status == 400 ==> r.body == Message(FieldsRequired)
    ensures r.status == 404 || r.status == 401 ==> r.body == Message(InvalidCredentials)
    ensures r.status == 500 ==> r.body == Message(InternalError)
    ensures r.status == 500 <==>
      Truthy(b.email) && Truthy(b.password) && FindByEmail(users, b.email.value).Some?
      && matches(b.password.value, FindByEmail(users, b.email.value).value.password) && secret == ""
    ensures r.status in {200, 400, 401, 404, 500}
    ensures r.status == 200 ==>
      var u := FindByEmail(users, b.email.value).value;
      && r.body.Session? && r.body.user == Public(u)
      && Decode(r.body.token, secret) == Some(Token(u.id, now, now + ExpiresInSeconds))
  {
    if !Truthy(b.email) || !Truthy(b.password) then Reply(400, Message(FieldsRequired))
    else match FindByEmail(users, b.email.value)
      case None => Reply(404, Message(InvalidCredentials))
      case Some(u) =>
        if !matches(b.password.value, u.password) then Reply(401, Message(InvalidCredentials))
        else match GenerateToken(u.id, now, secret)
          case None => Reply(500, Message(InternalError))
          case Some(token) => Reply(200, Session(token, Public(u)))
  }

  /** After a successful registration, logging in with the same email and a
      password the hasher's output accepts gives 200 and a token for the new
      user's id, the same subject the registration token carries. */
  lemma LoginAfterRegister(users: seq<User>, b: RegisterBody, id: UserId, hashed: string,
                           matches: (string, string) -> bool, now: nat, later: nat, secret: string)
    requires Unique(users) && RegisterAcceptable(users, b) && FindById(users, id).None?
    requires matches(b.password.value, hashed) && secret != ""
    ensures var u := NewUser(id, b, hashed);
      var reg := Registered(u, now, secret);
      var r := Login(users + [u], LoginBody(b.email, b.password), matches, later, secret);
      && reg.status == 201 && r.status == 200 && r.body.user == reg.body.user
      && Decode(reg.body.token, secret).value.subject == id
      && Decode(r.body.token, secret).value.subject == id
  {
    var u := NewUser(id, b, hashed);
    UniqueAppend(users, u);
    FindByEmailStored(users + [u], u);
  }

  /** Logging in with a wrong password for a stored email gives 401, whatever the clock and secret. */
  lemma LoginWrongPassword(users: seq<User>, u: User, password: string,
                           matches: (string, string) -> bool, now: nat, secret: string)
    requires Unique(users) && u in users && u.email != "" && password != ""
    requires !matches(password, u.password)
    ensures Login(users, LoginBody(Some(u.email), Some(password)), matches, now, secret)
      == Reply(401, Message(InvalidCredentials))
  {
    FindByEmailStored(users, u);
  }
}
