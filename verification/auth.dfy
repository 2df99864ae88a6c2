/** The registration and login handlers over the user store. `fault` stands
    for a store or bcrypt call throwing, which either handler answers with
    500 "Internal Server Error"; `salt` is the output of `bcrypt.genSalt`
    and `now` the signing time. */
module Auth {
  import opened Common
  import opened Users
  import opened Bcrypt
  import opened Tokens

  datatype RegisterRequest = RegisterRequest(email: string, password: string, name: string, avatar: Option<string>)

  datatype LoginRequest = LoginRequest(email: string, password: string)

  /** The `user` object of a successful response: no password. */
  datatype UserView = UserView(id: Id, name: string, email: string, avatar: string)

  /** The JSON response with its HTTP status. */
  datatype Response = Response(status: nat, success: bool, message: string, token: Option<Token>, user: Option<UserView>)

  datatype Registration = Registration(store: UserStore, response: Response)

  /** The public projection of a user that both handlers answer with:
      every field but the password digest. */
  function ViewOf(u: User): UserView {
    UserView(u.id, u.name, u.email, u.avatar)
  }

  /** The public view depends on every field except the password: two users
      differing only in their digest have the same view, and the view
      determines the id, name, email and avatar. */
  lemma ViewIgnoresOnlyPassword(u: User, v: User)
    ensures ViewOf(u) == ViewOf(v) <==>
      u.id == v.id && u.name == v.name && u.email == v.email && u.avatar == v.avatar
  {
  }

  const InternalError := Response(500, false, "Internal Server Error", None, None)
  const InvalidCredentials := Response(401, false, "Invalid credentials", None, None)
  const UserExists := Response(400, false, "User already exists", None, None)

  /** The document `registerUser` saves for a request that passed the
      duplicate check: the next fresh id, the stored form of the email, a
      digest that accepts the request's password, the avatar defaulting to
      "". The schema accepts it exactly when the stored email and the name
      are non-empty. */
  function NewUser(store: UserStore, req: RegisterRequest, salt: nat, now: nat): (r: User)
    ensures r.id == store.nextId && r.email == Normalize(req.email) && r.name == req.name
    ensures r.password.salt == salt && Compare(req.password, r.password)
    ensures Truthy(req.avatar) ==> r.avatar == req.avatar.value
    ensures !Truthy(req.avatar) ==> r.avatar == ""
    ensures SchemaValid(r) <==> Normalize(req.email) != "" && req.name != ""
  {
    User(store.nextId, Normalize(req.email), Hash(req.password, salt), req.name, OrElse(req.avatar, ""), now)
  }

  /** `registerUser`. An email already present (after normalisation) is
      rejected with 400 and the store unchanged. A document failing the
      schema's `required` checks makes `save` throw: 500, store unchanged.
      Otherwise exactly one user is added under its normalised email with a
      fresh id, its password stored as `Hash(password, salt)`, a missing or
      empty avatar stored as "", and the answer is 201 with a token for that
      user and the user's public fields. */
  function Register(store: UserStore, req: RegisterRequest, salt: nat, secret: string, now: nat, fault: bool): (r: Registration)
    requires StoreValid(store)
    ensures StoreValid(r.store)
    ensures r.response.status != 201 ==> r.store == store
    ensures fault ==> r.response == InternalError
    ensures !fault && Normalize(req.email) in store.byEmail ==> r.response == UserExists
    ensures !fault && Normalize(req.email) !in store.byEmail && (Normalize(req.email) == "" || req.name == "") ==>
      r.response == InternalError
    ensures r.response.status == 201 ==>
      var key := Normalize(req.email);
      && !fault && key !in store.byEmail
      && r.store.byEmail.Keys == store.byEmail.Keys + {key}
      && (forall e :: e in store.byEmail ==> r.store.byEmail[e] == store.byEmail[e])
      && var u := r.store.byEmail[key];
         && u.password == Hash(req.password, salt)
         && u.email == key && u.name == req.name
         && u.avatar == OrElse(req.avatar, "")
         && (forall e :: e in store.byEmail ==> store.byEmail[e].id != u.id)
         && r.response == Response(201, true, "User registered successfully",
                                   Some(GenerateToken(u, secret, now)), Some(UserView(u.id, u.name, u.email, u.avatar)))
    ensures !fault && Normalize(req.email) !in store.byEmail && Normalize(req.email) != "" && req.name != "" ==>
      r.response.status == 201
  {
    if fault then Registration(store, InternalError)
    else
      var key := Normalize(req.email);
      if key in store.byEmail then Registration(store, UserExists)
      else
        if key == "" || req.name == "" then Registration(store, InternalError)
        else
          var u := NewUser(store, req, salt, now);
          Registration(AddUser(store, u), Response(201, true, "User registered successfully",
                                                   Some(GenerateToken(u, secret, now)), Some(ViewOf(u))))
  }

  /** `user.save()` of a new document: it is stored under its email, every
      other document stays, and the id generator advances. */
  function AddUser(store: UserStore, u: User): (r: UserStore)
    requires StoreValid(store)
    requires SchemaValid(u) && u.email !in store.byEmail && u.id == store.nextId
    ensures StoreValid(r)
    ensures r.byEmail.Keys == store.byEmail.Keys + {u.email}
    ensures r.byEmail[u.email] == u
    ensures forall e :: e in store.byEmail ==> r.byEmail[e] == store.byEmail[e]
    ensures forall e :: e in store.byEmail ==> store.byEmail[e].id != u.id
  {
    AddPreservesValid(store, u);
    var byEmail := store.byEmail[u.email := u];
    assert forall e :: e in store.byEmail ==> byEmail[e] == store.byEmail[e];
    UserStore(byEmail, store.nextId + 1)
  }

  /** `loginUser`. It never changes the store. An unknown email and a wrong
      password get the identical 401 response; a matching password gets 200
      with a token for that user and its public fields. */
  function Login(store: UserStore, req: LoginRequest, secret: string, now: nat, fault: bool): (r: Response)
    ensures fault ==> r == InternalError
    ensures !fault && FindByEmail(store, req.email).None? ==> r == InvalidCredentials
    ensures !fault && FindByEmail(store, req.email).Some? ==>
      var u := FindByEmail(store, req.email).value;
      && (!Compare(req.password, u.password) ==> r == InvalidCredentials)
      && (Compare(req.password, u.password) ==>
            r == Response(200, true, "Login successful", Some(GenerateToken(u, secret, now)), Some(ViewOf(u))))
  {
    if fault then InternalError
    else
      match FindByEmail(store, req.email)
      case None => InvalidCredentials
      case Some(u) =>
        if !Compare(req.password, u.password) then InvalidCredentials
        else Response(200, true, "Login successful", Some(GenerateToken(u, secret, now)), Some(ViewOf(u)))
  }

  /** Adding a schema-valid user under its own, unused email with the next
      fresh id keeps the store valid. */
  lemma AddPreservesValid(store: UserStore, u: User)
    requires StoreValid(store)
    requires SchemaValid(u) && u.email !in store.byEmail && u.id == store.nextId
    ensures StoreValid(UserStore(store.byEmail[u.email := u], store.nextId + 1))
  {
    var after := UserStore(store.byEmail[u.email := u], store.nextId + 1);
    forall e | e in after.byEmail
      ensures after.byEmail[e].email == e && SchemaValid(after.byEmail[e]) && after.byEmail[e].id < after.nextId
    {
      if e != u.email {
        assert after.byEmail[e] == store.byEmail[e];
      }
    }
    forall e1, e2 | e1 in after.byEmail && e2 in after.byEmail && e1 != e2
      ensures after.byEmail[e1].id != after.byEmail[e2].id
    {
      if e1 != u.email && e2 != u.email {
        assert after.byEmail[e1] == store.byEmail[e1] && after.byEmail[e2] == store.byEmail[e2];
      } else if e1 == u.email {
        assert store.byEmail[e2].id < store.nextId;
      } else {
        assert store.byEmail[e1].id < store.nextId;
      }
    }
  }

  /** An unknown email and a wrong password for a known one produce the same
      response, so a caller cannot tell which of the two happened. */
  lemma UnknownEmailLooksLikeWrongPassword(store: UserStore, unknown: LoginRequest, wrong: LoginRequest,
                                           secret: string, now: nat)
    requires FindByEmail(store, unknown.email).None?
    requires FindByEmail(store, wrong.email).Some?
    requires !Compare(wrong.password, FindByEmail(store, wrong.email).value.password)
    ensures Login(store, unknown, secret, now, false) == Login(store, wrong, secret, now, false)
  {
  }

  /** After a successful registration (a new, non-empty email and a
      non-empty name), logging in with any spelling of the email that
      normalises alike succeeds for the new user exactly when the password
      has the registered one's 72 key bytes; in particular the registered
      password itself succeeds, and among passwords without U+0000 a
      registered password shorter than 72 bytes admits no other. Every
      other password is refused. */
  lemma {:induction false} RegisterThenLogin(store: UserStore, req: RegisterRequest, salt: nat, secret: string,
                                             t1: nat, login: LoginRequest, t2: nat)
    requires StoreValid(store)
    requires Normalize(req.email) !in store.byEmail && Normalize(req.email) != "" && req.name != ""
    requires Normalize(login.email) == Normalize(req.email)
    ensures var after := Register(store, req, salt, secret, t1, false).store;
      var u := after.byEmail[Normalize(req.email)];
      var success := Response(200, true, "Login successful", Some(GenerateToken(u, secret, t2)), Some(ViewOf(u)));
      && (KeyOf(login.password) == KeyOf(req.password) ==> Login(after, login, secret, t2, false) == success)
      && (KeyOf(login.password) != KeyOf(req.password) ==> Login(after, login, secret, t2, false) == InvalidCredentials)
      && (login.password == req.password ==> Login(after, login, secret, t2, false) == success)
      && (|Utf8(req.password)| < KeyBytes && '\0' !in req.password && '\0' !in login.password ==>
            (Login(after, login, secret, t2, false) == success <==> login.password == req.password))
  {
    var r := Register(store, req, salt, secret, t1, false);
    var u := r.store.byEmail[Normalize(req.email)];
    assert FindByEmail(r.store, login.email) == Some(u);
    assert Compare(login.password, u.password) <==> KeyOf(login.password) == KeyOf(req.password);
    if |Utf8(req.password)| < KeyBytes && '\0' !in req.password && '\0' !in login.password {
      ShortPasswordMatchesOnlyItself(req.password, login.password, salt);
    }
  }

  /** Two passwords that share their first 72 UTF-8 bytes are interchangeable:
      a user registered with one of them logs in with the other. */
  lemma {:induction false} LongPasswordsShareLogin(store: UserStore, req: RegisterRequest, prefix: string,
                                                   tail: string, salt: nat, secret: string, t1: nat, t2: nat)
    requires StoreValid(store)
    requires Normalize(req.email) !in store.byEmail && Normalize(req.email) != "" && req.name != ""
    requires |Utf8(prefix)| >= KeyBytes && req.password == prefix + tail
    ensures var after := Register(store, req, salt, secret, t1, false).store;
      Login(after, LoginRequest(req.email, prefix), secret, t2, false).status == 200
  {
    var after := Register(store, req, salt, secret, t1, false).store;
    var u := after.byEmail[Normalize(req.email)];
    assert FindByEmail(after, req.email) == Some(u);
    BytesPastTheKeyIgnored(prefix, [], tail, salt);
    assert prefix + [] == prefix;
  }

  /** Once an email is registered, registering it a second time is
      rejected and changes nothing. */
  lemma {:induction false} RegisterTwiceRejected(store: UserStore, req: RegisterRequest, again: RegisterRequest,
                                                 s1: nat, s2: nat, secret: string, t1: nat, t2: nat)
    requires StoreValid(store)
    requires Normalize(req.email) !in store.byEmail && Normalize(req.email) != "" && req.name != ""
    requires Normalize(again.email) == Normalize(req.email)
    ensures var after := Register(store, req, s1, secret, t1, false).store;
      Register(after, again, s2, secret, t2, false) == Registration(after, UserExists)
  {
    var after := Register(store, req, s1, secret, t1, false).store;
    assert Normalize(again.email) in after.byEmail;
  }
}
