/** The user repository of src/repositories/userRepository.js over the `users`
    table of src/db/db.js.

    The table is a map from username to the rest of the row, which makes the
    `unique()` constraint on `username` (db.js:18) structural; `increments('id')`
    (db.js:17) is the counter `nextId`. bcrypt is not modelled: `hash` and
    `compare` are supplied by the caller, and the random salt is a parameter. */
module UserRepository {
  import opened Js

  /** bcrypt's work factor. */
  const SaltRounds := 10

  type Hasher = (string, nat, string) -> string    // plaintext, rounds, salt
  type Comparer = (string, string) -> bool         // plaintext, hash

  /** A stored row, keyed by its username. */
  datatype UserRecord = UserRecord(id: nat, passwordHash: string, createdAt: string)

  /** A whole row as `findByUsername` returns it, `password` column included. */
  datatype UserRow = UserRow(id: nat, username: string, password: string, createdAt: string)

  /** A row without its `password` column, as `findById` returns it. */
  datatype UserProfile = UserProfile(id: nat, username: string, createdAt: string)

  /** What `create` returns: `{ id, username }`. */
  datatype PublicUser = PublicUser(id: nat, username: string)

  /** Why `create` throws: bcrypt refuses a non-string password; the database
      refuses a duplicate username. */
  datatype CreateError = HashRejected | UniqueViolation

  /** `bcrypt.compare` fails (throws) unless the plaintext is a string. */
  datatype CompareError = CompareRejected

  class UserStore {
    var users: map<string, UserRecord>
    var nextId: nat

    /** Auto-increment ids: every id is positive, below the next one to be
        handed out, and no two users share one. */
    ghost predicate Valid()
      reads this
    {
      && nextId >= 1
      && (forall u :: u in users ==> 1 <= users[u].id < nextId)
      && (forall u, v :: u in users && v in users && u != v ==> users[u].id != users[v].id)
    }

    constructor ()
      ensures Valid() && users == map[] && nextId == 1
    {
      users := map[];
      nextId := 1;
    }

    /** `findByUsername(username)`: the row stored under exactly that username, or null. */
    function FindByUsername(username: string): (r: Option<UserRow>)
      reads this
      ensures r.Some? <==> username in users
      ensures r.Some? ==>
        && r.value.username == username
        && r.value.id == users[username].id
        && r.value.password == users[username].passwordHash
        && r.value.createdAt == users[username].createdAt
    {
      if username in users then
        var rec := users[username];
        Some(UserRow(rec.id, username, rec.passwordHash, rec.createdAt))
      else None
    }

    /** `findById(id)`: the row with that id minus its password, or null. */
    function FindById(id: int): (r: Option<UserProfile>)
      requires Valid()
      reads this
      ensures r.None? <==> forall u :: u in users ==> users[u].id != id
      ensures r.Some? ==>
        && r.value.id == id
        && r.value.username in users
        && users[r.value.username].id == id
        && users[r.value.username].createdAt == r.value.createdAt
    {
      if exists u :: u in users && users[u].id == id then
        var u :| u in users && users[u].id == id;
        Some(UserProfile(id, u, users[u].createdAt))
      else None
    }

    /** `create(username, password)`: hash the password with 10 rounds, then insert
        the row; returns `{ id, username }`. Only the hash is stored. */
    method Create(username: string, password: JsValue, hash: Hasher, salt: string, createdAt: string)
      returns (r: Result<PublicUser, CreateError>)
      requires Valid()
      modifies this
      ensures Valid()
      ensures !password.Str? ==> r == Err(HashRejected) && unchanged(this)
      ensures password.Str? && username in old(users) ==> r == Err(UniqueViolation) && unchanged(this)
      ensures password.Str? && username !in old(users) ==>
        && r == Ok(PublicUser(old(nextId), username))
        && users == old(users)[username := UserRecord(old(nextId), hash(password.s, SaltRounds, salt), createdAt)]
        && nextId == old(nextId) + 1
      ensures r.Ok? ==> forall u :: u in old(users) ==> old(users)[u].id < r.value.id
    {
      if !password.Str? {
        return Err(HashRejected);
      }
      var hashedPassword := hash(password.s, SaltRounds, salt);
      if username in users {
        return Err(UniqueViolation);
      }
      var id := nextId;
      users := users[username := UserRecord(id, hashedPassword, createdAt)];
      nextId := nextId + 1;
      r := Ok(PublicUser(id, username));
    }
  }

  /** `verifyPassword(plain, hashed)`: exactly bcrypt's verdict; bcrypt throws
      for a plaintext that is not a string. */
  function VerifyPassword(compare: Comparer, plain: JsValue, hashed: string): (r: Result<bool, CompareError>)
    ensures r.Err? <==> !plain.Str?
    ensures plain.Str? ==> r == Ok(compare(plain.s, hashed))
  {
    match plain
    case Str(p) => Ok(compare(p, hashed))
    case _ => Err(CompareRejected)
  }

  /** A stored user is found both ways: by name with its whole row, and by id
      with the row minus the password. */
  lemma CreatedUserFound(store: UserStore, username: string, id: nat, hashed: string, createdAt: string)
    requires store.Valid()
    requires username in store.users && store.users[username] == UserRecord(id, hashed, createdAt)
    ensures store.FindByUsername(username) == Some(UserRow(id, username, hashed, createdAt))
    ensures store.FindById(id) == Some(UserProfile(id, username, createdAt))
  {
  }
}
