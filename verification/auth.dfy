/**
  `signup` and `login`. Password hashing and comparison are functions the
  caller supplies (they stand for bcrypt); the token `login` signs is not
  modelled, only the identity it would carry.
 */
module Auth {
  import opened Common
  import opened Text
  import opened Schema

  /** `username`, `email`, `password` of a request body. */
  datatype Credentials = Credentials(username: Option<string>, email: Option<string>, password: Option<string>)

  predicate Complete(req: Credentials) {
    Truthy(req.username) && Truthy(req.email) && Truthy(req.password)
  }

  /**
    `findOne({ email })`: the path's setters run on a query filter too, so
    the email is trimmed and lower-cased before it is compared with the
    stored, equally normalised emails.
   */
  predicate EmailInUse(s: Store, email: string) {
    exists id | id in s.users :: s.users[id].email == NormalEmail(email)
  }

  /** The user document `create` builds, setters applied. */
  function Registered(req: Credentials, hash: string -> string, role: Role): (u: User)
    requires Complete(req)
    ensures u.role == role
    ensures u.email == NormalEmail(req.email.value) && u.username == Trim(req.username.value)
    ensures u.password == hash(req.password.value)
  {
    NewUser(req.username.value, req.email.value, hash(req.password.value), role)
  }

  /**
    The part `signup` and `createTeacher` share once the caller is known to
    be an admin: 400 for a missing field, 409 when the email is in use,
    otherwise one new user with `role`; a document the user schema refuses,
    or a clash on the unique email index, is a 500.
   */
  function Register(s: Store, req: Credentials, hash: string -> string, role: Role): (r: Reply)
    ensures r.status in {BadRequest, Conflict, Created, ServerError}
    ensures r.status != Created ==> r.store == s
    ensures r.status == BadRequest <==> !Complete(req)
    ensures r.status == Conflict <==> Complete(req) && EmailInUse(s, req.email.value)
    ensures r.status == Created <==> Complete(req) && !EmailInUse(s, req.email.value) && UserOk(Registered(req, hash, role))
    ensures r.status == ServerError <==> Complete(req) && !EmailInUse(s, req.email.value) && !UserOk(Registered(req, hash, role))
    ensures r.status == Created ==> Complete(req) && r.store == PutUser(s, Registered(req, hash, role))
  {
    if !Complete(req) then Reply(BadRequest, s)
    else if EmailInUse(s, req.email.value) then Reply(Conflict, s)
    else
      var u := Registered(req, hash, role);
      EmailIndexLookup(s, req.email.value);
      match InsertUser(s, u)
      case Written(_, s') => Reply(Created, s')
      case _ => Reply(ServerError, s)
  }

  /**
    The unique index, which compares the normalised email the new document
    carries, sees an email as taken exactly when the pre-check does.
   */
  lemma EmailIndexLookup(s: Store, email: string)
    ensures TakenBy(s.users, UserEmail, NormalEmail(email), None) <==> EmailInUse(s, email)
  {
    if TakenBy(s.users, UserEmail, NormalEmail(email), None) {
      var id :| id in s.users && Some(id) != None && UserEmail(s.users[id]) == NormalEmail(email);
      assert s.users[id].email == NormalEmail(email);
    }
    if EmailInUse(s, email) {
      var id :| id in s.users && s.users[id].email == NormalEmail(email);
      assert UserEmail(s.users[id]) == NormalEmail(email);
    }
  }

  lemma RegisterKeepsValid(s: Store, req: Credentials, hash: string -> string, role: Role)
    requires Valid(s)
    ensures Valid(Register(s, req, hash, role).store)
  {
    if Register(s, req, hash, role).status == Created {
      InsertUserKeepsValid(s, Registered(req, hash, role));
    }
  }

  /** `signup`: only an admin may register users, and they always become students. */
  function Signup(s: Store, user: Option<Caller>, req: Credentials, hash: string -> string): (r: Reply)
    ensures r.status != Created ==> r.store == s
    ensures r.status == Forbidden <==> !Ensure(user, AdminRole)
    ensures Ensure(user, AdminRole) ==> r == Register(s, req, hash, StudentRole)
    ensures r.status == Created ==> r.store.users[s.nextId].role == StudentRole
  {
    if !Ensure(user, AdminRole) then Reply(Forbidden, s)
    else Register(s, req, hash, StudentRole)
  }

  lemma SignupKeepsValid(s: Store, user: Option<Caller>, req: Credentials, hash: string -> string)
    requires Valid(s)
    ensures Valid(Signup(s, user, req, hash).store)
  {
    RegisterKeepsValid(s, req, hash, StudentRole);
  }

  /** The admin check comes before the body is looked at. */
  lemma SignupRoleFirst(s: Store, user: Option<Caller>, req: Credentials, req': Credentials, hash: string -> string)
    requires !Ensure(user, AdminRole)
    ensures Signup(s, user, req, hash) == Signup(s, user, req', hash) == Reply(Forbidden, s)
  {
  }

  /**
    An email that differs from a stored one only in case or surrounding
    whitespace is the stored user's email: registering it again is a 409.
   */
  lemma CaseVariantEmailConflicts(s: Store, req: Credentials, hash: string -> string, role: Role, id: Id)
    requires Complete(req) && id in s.users
    requires s.users[id].email == NormalEmail(req.email.value)
    ensures Register(s, req, hash, role) == Reply(Conflict, s)
  {
  }

  /**
    Two requests whose emails differ only in case or surrounding whitespace
    get the same answer and leave the same store.
   */
  lemma RegisterSeesNormalEmail(s: Store, req: Credentials, email': string, hash: string -> string, role: Role)
    requires Truthy(req.email) && email' != [] && NormalEmail(email') == NormalEmail(req.email.value)
    ensures Register(s, req.(email := Some(email')), hash, role) == Register(s, req, hash, role)
  {
    var req' := req.(email := Some(email'));
    assert Complete(req') == Complete(req);
    assert EmailInUse(s, email') == EmailInUse(s, req.email.value);
    if Complete(req) {
      var u := Registered(req, hash, role);
      assert Registered(req', hash, role) == u;
    }
  }

  /** Every email a valid store holds is its own normal form. */
  lemma StoredEmailsAreNormal(s: Store, id: Id)
    requires Valid(s) && id in s.users
    ensures s.users[id].email == NormalEmail(s.users[id].email)
  {
    assert UserOk(s.users[id]);
  }

  // ---------------------------------------------------------------------------
  // login

  /** `email` and `password` of a login body; the password may be missing. */
  datatype LoginRequest = LoginRequest(email: string, password: Option<string>)

  /** The answer to a login; on success the identity the signed token would carry, and the username. */
  datatype Session = Session(status: Status, userId: Option<Id>, role: Option<Role>, username: string)

  function HasEmail(email: string): User -> bool {
    (u: User) => u.email == email
  }

  /**
    `login`: look the user up by the normalised email (404 when there is
    none), compare the password with the stored hash (401 on mismatch; a
    missing password makes the comparison throw, which is a 500),
    otherwise report the stored user's id, role and username.
   */
  function Login(s: Store, req: LoginRequest, matches: (string, string) -> bool): (r: Session)
    ensures r.status in {Ok, NotFound, Unauthorized, ServerError}
    ensures r.status == NotFound ==> forall id :: id < s.nextId && id in s.users ==> s.users[id].email != NormalEmail(req.email)
    ensures Below(s.users, s.nextId) && !EmailInUse(s, req.email) ==> r.status == NotFound
    ensures r.status != NotFound ==> (r.status == ServerError <==> req.password.None?)
    ensures r.status != Ok ==> r.userId.None? && r.role.None?
    ensures r.status == Unauthorized ==>
      && req.password.Some?
      && exists id :: id in s.users && s.users[id].email == NormalEmail(req.email) && !matches(req.password.value, s.users[id].password)
    ensures r.status == Ok ==>
      && req.password.Some? && r.userId.Some? && r.userId.value in s.users
      && var u := s.users[r.userId.value];
      && u.email == NormalEmail(req.email) && matches(req.password.value, u.password)
      && r.role == Some(u.role) && r.username == u.username
  {
    match FindOne(s, s.users, HasEmail(NormalEmail(req.email)))
    case None => Session(NotFound, None, None, "")
    case Some(id) =>
      var u := s.users[id];
      if req.password.None? then Session(ServerError, None, None, "")
      else if !matches(req.password.value, u.password) then Session(Unauthorized, None, None, "")
      else Session(Ok, Some(id), Some(u.role), u.username)
  }

  /**
    On a valid store at most one user has a given email, so a login that
    succeeds identifies that user and nobody else.
   */
  lemma LoginIdentifiesTheUser(s: Store, req: LoginRequest, matches: (string, string) -> bool, id: Id)
    requires Valid(s) && id in s.users && s.users[id].email == NormalEmail(req.email)
    ensures Login(s, req, matches).status != NotFound
    ensures Login(s, req, matches).status == Ok <==> req.password.Some? && matches(req.password.value, s.users[id].password)
    ensures Login(s, req, matches).status == Ok ==> Login(s, req, matches).userId == Some(id)
  {
    assert Unique(s.users, UserEmail) && Below(s.users, s.nextId);
    LoginFindsUser(s, req, matches, id);
  }

  lemma LoginFindsUser(s: Store, req: LoginRequest, matches: (string, string) -> bool, id: Id)
    requires Unique(s.users, UserEmail) && Below(s.users, s.nextId)
    requires id in s.users && s.users[id].email == NormalEmail(req.email)
    ensures Login(s, req, matches).status != NotFound
    ensures Login(s, req, matches).status == Ok <==> req.password.Some? && matches(req.password.value, s.users[id].password)
    ensures Login(s, req, matches).status == Ok ==> Login(s, req, matches).userId == Some(id)
  {
    var r := FindOne(s, s.users, HasEmail(NormalEmail(req.email)));
    assert HasEmail(NormalEmail(req.email))(s.users[id]);
    assert r.Some?;
    assert UserEmail(s.users[r.value]) == UserEmail(s.users[id]);
  }

  /**
    A user registered with some email logs in with that email as typed and
    the password it was registered with, and receives the role it was
    registered with.
   */
  lemma RegisterThenLogin(s: Store, req: Credentials, hash: string -> string, role: Role, matches: (string, string) -> bool)
    requires Valid(s) && Register(s, req, hash, role).status == Created
    requires matches(req.password.value, hash(req.password.value))
    ensures var s' := Register(s, req, hash, role).store;
      Login(s', LoginRequest(req.email.value, Some(req.password.value)), matches)
        == Session(Ok, Some(s.nextId), Some(role), Trim(req.username.value))
  {
    var s' := Register(s, req, hash, role).store;
    RegisterKeepsValid(s, req, hash, role);
    LoginIdentifiesTheUser(s', LoginRequest(req.email.value, Some(req.password.value)), matches, s.nextId);
  }
}
