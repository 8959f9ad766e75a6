/** The account routes: `POST /register`, `POST /login` and
    `GET /user/:email`, over the `User` collection keyed by e-mail. */
module Auth {
  import opened Common
  import opened Oracles

  /** A user document. `password` holds the bcrypt hash. `signingPublicKey`
      is part of the schema, but no route in this model ever writes it. */
  datatype User = User(email: string, password: Digest, publicKey: Option<string>,
                       signingPublicKey: Option<string>)

  /** The collection, keyed by the `email` field exactly as stored (the unique
      index on `email`). Lookups compare case-sensitively. */
  type Users = map<string, User>

  ghost predicate Wellformed(users: Users)
  {
    forall e :: e in users ==> users[e].email == e
  }

  /** No account has a signing key on record. */
  ghost predicate NoSigningKeys(users: Users)
  {
    forall e :: e in users ==> !Truthy(users[e].signingPublicKey)
  }

  const EmailExists := "Email already exists"
  const Registered := "User registered successfully"
  const BadCredentials := "Invalid email or password"
  const LoggedIn := "Login successful"

  /** The body of register and login replies: success carries the session
      token (an opaque value minted outside this model), the stored e-mail and
      public key. */
  datatype AuthBody =
    | Session(msg: string, token: string, email: string, publicKey: Option<string>)
    | Denied(msg: string)

  datatype Registration = Registration(reply: Reply<AuthBody>, users: Users)

  /** `POST /register`: refuse an e-mail already on record, otherwise store the
      account with the password hashed and the e-mail as given. */
  function Register(users: Users, crypto: Crypto, email: string, password: string,
                    publicKey: Option<string>, token: string): (r: Registration)
    ensures email in users ==> r == Registration(Reply(400, Denied(EmailExists)), users)
    ensures email !in users ==>
      && r.reply == Reply(201, Session(Registered, token, email, publicKey))
      && r.users.Keys == users.Keys + {email}
      && r.users[email] == User(email, crypto.hash(password), publicKey, None)
      && (forall e :: e in users ==> r.users[e] == users[e])
  {
    if email in users then
      Registration(Reply(400, Denied(EmailExists)), users)
    else
      var hashed := crypto.hash(password);
      var user := User(email, hashed, publicKey, None);
      Registration(Reply(201, Session(Registered, token, user.email, user.publicKey)), users[email := user])
  }

  /** `POST /login`: an unknown e-mail and a wrong password get the same reply. */
  function Login(users: Users, crypto: Crypto, email: string, password: string, token: string): (r: Reply<AuthBody>)
    ensures r.status == 200 <==> email in users && crypto.compare(password, users[email].password)
    ensures r.status != 200 ==> r == Reply(400, Denied(BadCredentials))
    ensures r.status == 200 ==> r == Reply(200, Session(LoggedIn, token, users[email].email, users[email].publicKey))
  {
    if email !in users then
      Reply(400, Denied(BadCredentials))
    else if !crypto.compare(password, users[email].password) then
      Reply(400, Denied(BadCredentials))
    else
      var user := users[email];
      Reply(200, Session(LoggedIn, token, user.email, user.publicKey))
  }

  const UserMissing := "User not found"

  /** The body of `GET /user/:email`: only the public key leaves the server. */
  datatype KeyLookup = PublicKey(publicKey: Option<string>) | UserNotFound(error: string)

  function LookupUser(users: Users, email: string): (r: Reply<KeyLookup>)
    ensures r.status == 404 <==> email !in users
    ensures r.status != 404 ==> r == Reply(200, PublicKey(users[email].publicKey))
    ensures r.status == 404 ==> r.body == UserNotFound(UserMissing)
  {
    if email !in users then Reply(404, UserNotFound(UserMissing)) else Reply(200, PublicKey(users[email].publicKey))
  }

  lemma RegisterPreservesWellformed(users: Users, crypto: Crypto, email: string, password: string,
                                    publicKey: Option<string>, token: string)
    requires Wellformed(users)
    ensures Wellformed(Register(users, crypto, email, password, publicKey, token).users)
  {
  }

  /** Registration never gives an account a signing key. */
  lemma RegisterPreservesNoSigningKeys(users: Users, crypto: Crypto, email: string, password: string,
                                       publicKey: Option<string>, token: string)
    requires NoSigningKeys(users)
    ensures NoSigningKeys(Register(users, crypto, email, password, publicKey, token).users)
  {
  }

  /** A login cannot tell an unknown e-mail from a wrong password. */
  lemma LoginFailuresIndistinguishable(users: Users, crypto: Crypto, email: string, password: string,
                                       token: string)
    requires email in users && !crypto.compare(password, users[email].password)
    ensures Login(users, crypto, email, password, token) == Login(users - {email}, crypto, email, password, token)
  {
  }

  /** A freshly registered account can log in with its password, and login and
      lookup both return the key it registered. */
  lemma RegisterThenLogin(users: Users, crypto: Crypto, email: string, password: string,
                          publicKey: Option<string>, t1: string, t2: string)
    requires BcryptSound(crypto)
    requires email !in users
    ensures var u := Register(users, crypto, email, password, publicKey, t1).users;
      && Login(u, crypto, email, password, t2) == Reply(200, Session(LoggedIn, t2, email, publicKey))
      && LookupUser(u, email) == Reply(200, PublicKey(publicKey))
  {
    var u := Register(users, crypto, email, password, publicKey, t1).users;
    assert crypto.compare(password, crypto.hash(password));
  }
}
