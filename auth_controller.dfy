/** `register` and `login` of src/controllers/authController.js: ordered
    validation and lookup pipelines over the user store, ending in a token from
    `generateToken`. Every fault thrown inside the `try` becomes a 500 with a
    generic message. */
module AuthController {
  import opened Js
  import opened AuthMiddleware
  import opened UserRepository

  /** The destructured request body `{ username, password }`. */
  datatype Credentials = Credentials(username: JsValue, password: JsValue)

  /** The JSON answer: `{ message, user: { id, username }, token }` or `{ error }`.
      There is no field a password or a hash could travel in. */
  datatype AuthReply =
    | Success(status: nat, message: string, user: PublicUser, token: string)
    | Failure(status: nat, error: string)

  const MinPasswordLength := 6

  const MsgMissingFields := "Username and password are required"
  const MsgShortPassword := "Password must be at least 6 characters long"
  const MsgUsernameTaken := "Username already exists"
  const MsgBadCredentials := "Invalid username or password"
  const MsgRegisterFailed := "Failed to register user"
  const MsgLoginFailed := "Failed to login"
  const MsgUserCreated := "User created successfully"
  const MsgLoginSuccessful := "Login successful"

  /** `!username || !password` fails. */
  predicate BothPresent(body: Credentials) {
    Truthy(body.username) && Truthy(body.password)
  }

  /** `password.length < 6` with JavaScript's comparison: the `length` read,
      whatever it holds, is converted to a number, and a `length` that is no
      number (`NaN`) is never below 6. A `length` whose conversion throws makes
      the check throw. */
  function TooShort(password: JsValue): Result<bool, Throw> {
    LessThan(LengthOf(password), MinPasswordLength)
  }

  /** A string password is too short exactly when it has fewer than 6 characters. */
  lemma StringTooShortIff(s: string)
    ensures TooShort(Str(s)) == Ok(|s| < MinPasswordLength)
  {
  }

  /** Values other than strings are measured by their `length` as JavaScript
      reads and compares it: an object whose `length` is 3, "3" or `null`
      is too short, and so is an empty array; an object without `length`
      and a boolean are not, since `undefined < 6` is false. A `length` that
      is an object with its own `toString`, or an array holding one, throws. */
  lemma TooShortOtherValues()
    ensures TooShort(Obj(map["length" := Num(3)])) == Ok(true)
    ensures TooShort(Obj(map["length" := Str("3")])) == Ok(true)
    ensures TooShort(Obj(map["length" := Null])) == Ok(true)
    ensures TooShort(Arr([])) == Ok(true)
    ensures TooShort(Obj(map["length" := Num(6)])) == Ok(false)
    ensures TooShort(Obj(map[])) == Ok(false)
    ensures TooShort(Bool(true)) == Ok(false)
    ensures TooShort(Obj(map["length" := Obj(map["toString" := Num(0)])])) == Err(TypeError)
    ensures TooShort(Obj(map["length" := Arr([Obj(map["toString" := Num(0)])])])) == Err(TypeError)
  {
    assert NumberOf("3") == Some(3) by {
      DigitsAreNotSpaces("3");
      NumberOfDigits("3");
    }
  }

  /** The body passes both checks that `register` makes before the `try`. */
  predicate Validated(body: Credentials) {
    BothPresent(body) && TooShort(body.password) == Ok(false)
  }

  // ---------------------------------------------------------------------------
  // register

  /** `register`: the row's `createdAt` comes from the database clock (`createdAt`),
      and the token is signed at instant `now`. `Err` is a password check that
      throws before the `try`: the handler then sends no response, and its
      promise rejects with the `TypeError`. */
  method Register(store: UserStore, body: Credentials, secret: Option<string>,
                  hash: Hasher, salt: string, createdAt: string, sign: Signer, now: int)
    returns (reply: Result<AuthReply, Throw>)
    requires store.Valid()
    modifies store
    ensures store.Valid()
    ensures reply.Err? <==> BothPresent(body) && TooShort(body.password).Err?
    ensures reply.Ok? ==> reply.value.status in {201, 400, 409, 500}
    ensures !BothPresent(body) ==> reply == Ok(Failure(400, MsgMissingFields)) && unchanged(store)
    ensures BothPresent(body) && TooShort(body.password).Err? ==> reply == Err(TypeError) && unchanged(store)
    ensures BothPresent(body) && TooShort(body.password) == Ok(true) ==>
      reply == Ok(Failure(400, MsgShortPassword)) && unchanged(store)
    ensures Validated(body) && !body.username.Str? ==>
      reply == Ok(Failure(500, MsgRegisterFailed)) && unchanged(store)
    ensures Validated(body) && body.username.Str? && body.username.s in old(store.users) ==>
      reply == Ok(Failure(409, MsgUsernameTaken)) && unchanged(store)
    ensures Validated(body) && body.username.Str? && body.username.s !in old(store.users) && !body.password.Str? ==>
      reply == Ok(Failure(500, MsgRegisterFailed)) && unchanged(store)
    ensures Validated(body) && body.username.Str? && body.username.s !in old(store.users) && body.password.Str? ==>
      var id, name := old(store.nextId), body.username.s;
      && store.users == old(store.users)[name := UserRecord(id, hash(body.password.s, SaltRounds, salt), createdAt)]
      && store.nextId == id + 1
      && reply == Ok(if Configured(secret)
                     then Success(201, MsgUserCreated, PublicUser(id, name), sign(Claim(id, name), secret.value, DefaultExpiry, now))
                     else Failure(500, MsgRegisterFailed))
  {
    var username, password := body.username, body.password;
    if !Truthy(username) || !Truthy(password) {
      return Ok(Failure(400, MsgMissingFields));
    }
    var tooShort := TooShort(password);
    if tooShort.Err? {
      return Err(tooShort.error);
    }
    if tooShort.value {
      return Ok(Failure(400, MsgShortPassword));
    }
    if !username.Str? {
      return Ok(Failure(500, MsgRegisterFailed));
    }
    var existingUser := store.FindByUsername(username.s);
    if existingUser.Some? {
      return Ok(Failure(409, MsgUsernameTaken));
    }
    var created := store.Create(username.s, password, hash, salt, createdAt);
    if created.Err? {
      return Ok(Failure(500, MsgRegisterFailed));
    }
    var user := created.value;
    var token := GenerateToken(secret, sign, Claim(user.id, user.username), now);
    if token.Err? {
      return Ok(Failure(500, MsgRegisterFailed));
    }
    reply := Ok(Success(201, MsgUserCreated, PublicUser(user.id, user.username), token.value));
  }

  // ---------------------------------------------------------------------------
  // login

  /** `login`, signing its token at instant `now`; it only reads the store. */
  function Login(store: UserStore, body: Credentials, secret: Option<string>,
                 compare: Comparer, sign: Signer, now: int): (r: AuthReply)
    reads store
    ensures r.Success? ==>
      && r.status == 200 && body.username.Str?
      && body.username.s in store.users && r.user == PublicUser(store.users[body.username.s].id, body.username.s)
  {
    if !BothPresent(body) then Failure(400, MsgMissingFields)
    else if !body.username.Str? then Failure(500, MsgLoginFailed)
    else
      match store.FindByUsername(body.username.s)
      case None => Failure(401, MsgBadCredentials)
      case Some(user) =>
        match VerifyPassword(compare, body.password, user.password)
        case Err(_) => Failure(500, MsgLoginFailed)
        case Ok(isPasswordValid) =>
          if !isPasswordValid then Failure(401, MsgBadCredentials)
          else
            match GenerateToken(secret, sign, Claim(user.id, user.username), now)
            case Err(_) => Failure(500, MsgLoginFailed)
            case Ok(token) => Success(200, MsgLoginSuccessful, PublicUser(user.id, user.username), token)
  }

  /** The credentials a login accepts: a stored username and a password that
      bcrypt matches against that user's hash. */
  predicate CredentialsMatch(store: UserStore, body: Credentials, compare: Comparer)
    reads store
  {
    && body.username.Str? && body.username.s in store.users
    && body.password.Str? && compare(body.password.s, store.users[body.username.s].passwordHash)
  }

  /** Login succeeds exactly for present, matching credentials and a usable secret,
      and then answers 200 with the public user only and a token over
      `{ userId, username }` that expires in 1h. */
  lemma LoginSucceedsIff(store: UserStore, body: Credentials, secret: Option<string>,
                         compare: Comparer, sign: Signer, now: int)
    ensures Login(store, body, secret, compare, sign, now).Success? <==>
      BothPresent(body) && CredentialsMatch(store, body, compare) && Configured(secret)
    ensures Login(store, body, secret, compare, sign, now).Success? ==>
      var name := body.username.s;
      var id := store.users[name].id;
      Login(store, body, secret, compare, sign, now) ==
        Success(200, MsgLoginSuccessful, PublicUser(id, name), sign(Claim(id, name), secret.value, DefaultExpiry, now))
  {
  }

  /** Login answers with one of 200, 400, 401 and 500. */
  lemma LoginStatuses(store: UserStore, body: Credentials, secret: Option<string>,
                      compare: Comparer, sign: Signer, now: int)
    ensures Login(store, body, secret, compare, sign, now).status in {200, 400, 401, 500}
  {
  }

  /** Missing fields are rejected before the store is consulted: the answer does
      not depend on the store contents. */
  lemma LoginValidatesFirst(store: UserStore, other: UserStore, body: Credentials, secret: Option<string>,
                            compare: Comparer, sign: Signer, now: int)
    requires !BothPresent(body)
    ensures Login(store, body, secret, compare, sign, now) == Failure(400, MsgMissingFields)
    ensures Login(other, body, secret, compare, sign, now) == Login(store, body, secret, compare, sign, now)
  {
  }

  /** Enumeration resistance: an unknown username and a known username with a
      wrong password get the identical answer. */
  lemma EnumerationResistance(store: UserStore, unknown: string, known: string, p1: string, p2: string,
                              secret: Option<string>, compare: Comparer, sign: Signer, now: int)
    requires unknown != "" && known != "" && p1 != "" && p2 != ""
    requires unknown !in store.users
    requires known in store.users && !compare(p2, store.users[known].passwordHash)
    ensures Login(store, Credentials(Str(unknown), Str(p1)), secret, compare, sign, now) ==
            Login(store, Credentials(Str(known), Str(p2)), secret, compare, sign, now)
    ensures Login(store, Credentials(Str(unknown), Str(p1)), secret, compare, sign, now) ==
            Failure(401, MsgBadCredentials)
  {
  }

  /** The limit of enumeration resistance: a truthy password that is not a
      string makes bcrypt throw once the user is found, so a known username
      answers 500 where an unknown one answers 401. */
  lemma NonStringPasswordRevealsUser(store: UserStore, unknown: string, known: string, pw: JsValue,
                                     secret: Option<string>, compare: Comparer, sign: Signer, now: int)
    requires unknown != "" && known != ""
    requires unknown !in store.users && known in store.users
    requires Truthy(pw) && !pw.Str?
    ensures Login(store, Credentials(Str(known), pw), secret, compare, sign, now) == Failure(500, MsgLoginFailed)
    ensures Login(store, Credentials(Str(unknown), pw), secret, compare, sign, now) == Failure(401, MsgBadCredentials)
  {
  }

  /** The password reaches the answer only through bcrypt's verdict: two
      passwords that bcrypt judges alike against the stored hash get the same
      answer, so the plaintext never appears in it. */
  lemma LoginPasswordOnlyThroughCompare(store: UserStore, name: JsValue, p1: string, p2: string,
                                        secret: Option<string>, compare: Comparer, sign: Signer, now: int)
    requires p1 != "" && p2 != ""
    requires name.Str? && name.s in store.users ==>
      compare(p1, store.users[name.s].passwordHash) == compare(p2, store.users[name.s].passwordHash)
    ensures Login(store, Credentials(name, Str(p1)), secret, compare, sign, now) ==
            Login(store, Credentials(name, Str(p2)), secret, compare, sign, now)
  {
  }

  /** A user stored by `register` with password `pw` logs in with `pw`, provided
      bcrypt accepts a password against its own hash. */
  lemma LoginAfterRegister(store: UserStore, name: string, pw: string, id: nat, salt: string, createdAt: string,
                           secret: Option<string>, hash: Hasher, compare: Comparer, sign: Signer, now: int)
    requires name != "" && pw != ""
    requires name in store.users && store.users[name] == UserRecord(id, hash(pw, SaltRounds, salt), createdAt)
    requires compare(pw, hash(pw, SaltRounds, salt))
    requires Configured(secret)
    ensures Login(store, Credentials(Str(name), Str(pw)), secret, compare, sign, now) ==
      Success(200, MsgLoginSuccessful, PublicUser(id, name), sign(Claim(id, name), secret.value, DefaultExpiry, now))
  {
  }

  /** The end-to-end scenario: registering a fresh username with a long enough
      password at instant `registeredAt` answers 201; logging in with the same
      password at `loggedInAt` answers 200 with the same user and a token issued
      at that instant; and each token, sent as `Bearer <token>` while valid,
      passes the gate with the new user's claim. */
  method RegisterLoginAuthenticate(store: UserStore, name: string, pw: string, secret: Option<string>,
                                   hash: Hasher, salt: string, createdAt: string,
                                   compare: Comparer, sign: Signer, verify: Verifier,
                                   registeredAt: int, loggedInAt: int)
    returns (registered: AuthReply, loggedIn: AuthReply, gate: GateResult, loginGate: GateResult)
    requires store.Valid()
    requires name != "" && |pw| >= MinPasswordLength && name !in store.users
    requires Configured(secret)
    requires compare(pw, hash(pw, SaltRounds, salt))
    requires SignVerifyAgree(sign, verify, secret.value, DefaultExpiry, registeredAt)
    requires SignVerifyAgree(sign, verify, secret.value, DefaultExpiry, loggedInAt)
    modifies store
    ensures registered.Success? && registered.status == 201 && registered.user.username == name
    ensures registered.token == sign(Claim(registered.user.id, name), secret.value, DefaultExpiry, registeredAt)
    ensures loggedIn.Success? && loggedIn.status == 200 && loggedIn.user == registered.user
    ensures loggedIn.token == sign(Claim(registered.user.id, name), secret.value, DefaultExpiry, loggedInAt)
    ensures gate == Continue(Claim(registered.user.id, name))
    ensures loginGate == Continue(Claim(registered.user.id, name))
  {
    StringTooShortIff(pw);
    var reply := Register(store, Credentials(Str(name), Str(pw)), secret, hash, salt, createdAt, sign, registeredAt);
    registered := reply.value;
    var id := registered.user.id;
    LoginAfterRegister(store, name, pw, id, salt, createdAt, secret, hash, compare, sign, loggedInAt);
    loggedIn := Login(store, Credentials(Str(name), Str(pw)), secret, compare, sign, loggedInAt);
    IssuedTokenAccepted(secret, sign, verify, Claim(id, name), registeredAt);
    gate := Authenticate(Some("Bearer " + registered.token), secret, verify);
    IssuedTokenAccepted(secret, sign, verify, Claim(id, name), loggedInAt);
    loginGate := Authenticate(Some("Bearer " + loggedIn.token), secret, verify);
  }
}
