/** The user collection: the records the authentication routes create and read
    (the Mongoose `User` model, whose own file is not part of this model). */
module Users {
  import opened Common

  type UserId = nat

  /** A stored user. `password` holds what the password hasher produced, never
      the plain text. */
  datatype User = User(id: UserId, email: string, username: string, password: string, profileImage: string)

  /** A user as the API hands it out: every field except the password
      (`select("-password")`, and the `user` object of the auth responses). */
  datatype PublicUser = PublicUser(id: UserId, username: string, email: string, profileImage: string)

  function Public(u: User): PublicUser {
    PublicUser(u.id, u.username, u.email, u.profileImage)
  }

  /** `User.findOne({ email })`. */
  function FindByEmail(users: seq<User>, email: string): Option<User> {
    First(users, (u: User) => u.email == email)
  }

  /** `User.findOne({ username })`. */
  function FindByUsername(users: seq<User>, username: string): Option<User> {
    First(users, (u: User) => u.username == username)
  }

  /** `User.findById(id)`. */
  function FindById(users: seq<User>, id: UserId): Option<User> {
    First(users, (u: User) => u.id == id)
  }

  /** No two stored users share an id, an email or a username. */
  ghost predicate Unique(users: seq<User>) {
    forall i, j :: 0 <= i < j < |users| ==>
      users[i].id != users[j].id && users[i].email != users[j].email && users[i].username != users[j].username
  }

  /** In a store without duplicates, looking a stored user up by id finds that user. */
  lemma FindByIdStored(users: seq<User>, u: User)
    requires Unique(users) && u in users
    ensures FindById(users, u.id) == Some(u)
  {
    forall y | y in users && y.id == u.id ensures y == u {
      var i :| 0 <= i < |users| && users[i] == y;
      var j :| 0 <= j < |users| && users[j] == u;
      assert i == j;
    }
    FirstOnly(users, (x: User) => x.id == u.id, u);
  }

  /** In a store without duplicates, looking a stored user up by email finds that user. */
  lemma FindByEmailStored(users: seq<User>, u: User)
    requires Unique(users) && u in users
    ensures FindByEmail(users, u.email) == Some(u)
  {
    forall y | y in users && y.email == u.email ensures y == u {
      var i :| 0 <= i < |users| && users[i] == y;
      var j :| 0 <= j < |users| && users[j] == u;
      assert i == j;
    }
    FirstOnly(users, (x: User) => x.email == u.email, u);
  }

  /** Appending a user whose id, email and username are all free keeps the
      store free of duplicates. */
  lemma UniqueAppend(users: seq<User>, u: User)
    requires Unique(users)
    requires FindById(users, u.id).None?
    requires FindByEmail(users, u.email).None? && FindByUsername(users, u.username).None?
    ensures Unique(users + [u])
  {
    var all := users + [u];
    forall i, j | 0 <= i < j < |all|
      ensures all[i].id != all[j].id && all[i].email != all[j].email && all[i].username != all[j].username
    {
      if j < |users| {
        assert all[i] == users[i] && all[j] == users[j];
      } else {
        assert all[i] == users[i] && all[j] == u;
      }
    }
  }

  /** The collection as a mutable store: users in insertion order, and the next
      id to hand out (the stand-in for a fresh ObjectId). */
  class UserCollection {
    var users: seq<User>
    var nextId: UserId

    ghost predicate Valid()
      reads this
    {
      Unique(users) && forall i :: 0 <= i < |users| ==> users[i].id < nextId
    }

    constructor ()
      ensures Valid() && users == [] && nextId == 0
    {
      users := [];
      nextId := 0;
    }

    /** `new User({...}).save()`: store a user under a fresh id. The email and
        username must be free, which the register handler checks first. */
    method Save(email: string, username: string, password: string, profileImage: string) returns (u: User)
      requires Valid()
      requires FindByEmail(users, email).None? && FindByUsername(users, username).None?
      modifies this
      ensures Valid()
      ensures u == User(old(nextId), email, username, password, profileImage)
      ensures users == old(users) + [u] && FindById(old(users), u.id).None?
    {
      u := User(nextId, email, username, password, profileImage);
      UniqueAppend(users, u);
      users := users + [u];
      nextId := nextId + 1;
    }
  }
}
