/**
 * `controllers/auth.controller.ts`: sign-up with the operator sign-up code, and
 * login. Password hashing and token signing are parameters: `hash` is the bcrypt hash
 * (so `bcrypt.compare(p, stored)` holds when `hash(p) == stored`) and `sign` is
 * `generateToken` with its secret and expiry.
 */
module AuthController {
  import opened Wrappers
  import opened Text
  import opened Documents
  import opened UserModel
  import opened AuthMiddleware
  import Database

  const DefaultSignUpCode: string := "agency2025"
  const EmailTakenMessage: string := "Email already registered"
  const InvalidCredentialsMessage: string := "Invalid credentials"
  const ServerErrorMessage: string := "Server error"

  /** `process.env.SIGN_UP_CODE || 'agency2025'`: an unset or empty variable gives the default. */
  function SignUpCode(env: Option<string>): (code: string)
    ensures Truthy(env) ==> code == env.value
    ensures !Truthy(env) ==> code == DefaultSignUpCode
    ensures code != ""
  {
    if Truthy(env) then env.value else DefaultSignUpCode
  }

  /** `signUpCode === SIGN_UP_CODE ? 'operator' : 'user'`. */
  function RoleFor(signUpCode: Option<string>, configured: string): (role: Role)
    ensures role == OperatorRole <==> signUpCode == Some(configured)
  {
    if signUpCode == Some(configured) then OperatorRole else UserRole
  }

  /** A status with the JSON fields the handlers send: a message, or a token and a role. */
  datatype AuthReply = AuthReply(status: int, message: string, token: Option<string>, role: Option<Role>)

  /**
   * `register`. 400 when the email is registered already; 500 when the password is
   * missing (bcrypt throws), when the schema refuses the user (an empty email or hash)
   * or when its `_id` is taken; otherwise the user is appended with the hashed password
   * and the role the sign-up code selects, and the answer is 201 with a token for
   * that user and role.
   */
  method Register(db: Database.Store, email: string, password: Option<string>, signUpCode: Option<string>,
                  configured: string, hash: string -> string, sign: AuthPayload -> string, newId: Id)
    returns (reply: AuthReply)
    requires db.Valid()
    modifies db`users
    ensures db.Valid()
    ensures reply.status == 400 <==> FindByEmail(old(db.users), email).Some?
    ensures reply.status == 400 ==> reply.message == EmailTakenMessage
    ensures reply.status == 201 <==>
      && FindByEmail(old(db.users), email).None?
      && password.Some? && email != "" && hash(password.value) != ""
      && FindById(old(db.users), newId).None?
    ensures reply.status in {201, 400, 500}
    ensures reply.status == 201 ==>
      && db.users == old(db.users) + [Doc(newId, NewUser(email, hash(password.value), Some(RoleFor(signUpCode, configured))))]
      && reply.token == Some(sign(AuthPayload(newId, RoleFor(signUpCode, configured))))
      && reply.role == Some(RoleFor(signUpCode, configured))
    ensures reply.status != 201 ==> db.users == old(db.users) && reply.token.None?
  {
    if FindByEmail(db.users, email).Some? {
      return AuthReply(400, EmailTakenMessage, None, None);
    }
    if password.None? {
      return AuthReply(500, ServerErrorMessage, None, None);
    }
    var role := RoleFor(signUpCode, configured);
    var user := NewUser(email, hash(password.value), Some(role));
    if !Valid(user) || FindById(db.users, newId).Some? {
      return AuthReply(500, ServerErrorMessage, None, None);
    }
    var d := Doc(newId, user);
    AppendUser(db.users, d);
    db.users := db.users + [d];
    reply := AuthReply(201, "", Some(sign(AuthPayload(newId, role))), Some(role));
  }

  /**
   * `login`. 400 with the same message for an unknown email and for a wrong password;
   * 500 when the password is missing (bcrypt throws); otherwise 200 with a token for
   * the stored user and its stored role.
   */
  function Login(users: seq<Doc<User>>, email: string, password: Option<string>,
                 hash: string -> string, sign: AuthPayload -> string): (reply: AuthReply)
    ensures reply.status == 400 <==>
      FindByEmail(users, email).None? ||
      (password.Some? && hash(password.value) != FindByEmail(users, email).value.body.password)
    ensures reply.status == 400 ==> reply == AuthReply(400, InvalidCredentialsMessage, None, None)
    ensures reply.status == 500 <==> FindByEmail(users, email).Some? && password.None?
    ensures reply.status == 200 <==>
      && FindByEmail(users, email).Some? && password.Some?
      && hash(password.value) == FindByEmail(users, email).value.body.password
    ensures reply.status == 200 ==>
      var d := FindByEmail(users, email).value;
      reply.token == Some(sign(AuthPayload(d.id, d.body.role))) && reply.role == Some(d.body.role)
  {
    match FindByEmail(users, email)
    case None => AuthReply(400, InvalidCredentialsMessage, None, None)
    case Some(d) =>
      if password.None? then AuthReply(500, ServerErrorMessage, None, None)
      else if hash(password.value) != d.body.password then AuthReply(400, InvalidCredentialsMessage, None, None)
      else AuthReply(200, "", Some(sign(AuthPayload(d.id, d.body.role))), Some(d.body.role))
  }

  /** An unknown email and a wrong password are answered identically. */
  lemma UnknownEmailLooksLikeWrongPassword(users: seq<Doc<User>>, unknown: string, known: string,
                                            password: string, hash: string -> string, sign: AuthPayload -> string)
    requires FindByEmail(users, unknown).None?
    requires FindByEmail(users, known).Some? && hash(password) != FindByEmail(users, known).value.body.password
    ensures Login(users, unknown, Some(password), hash, sign) == Login(users, known, Some(password), hash, sign)
  {
  }

  /** A user appended with an email nobody has is the one `findOne({ email })` finds. */
  lemma {:induction false} FindByEmailAppended(users: seq<Doc<User>>, d: Doc<User>)
    requires FindByEmail(users, d.body.email).None?
    ensures FindByEmail(users + [d], d.body.email) == Some(d)
  {
    if |users| > 0 {
      assert (users + [d])[1..] == users[1..] + [d];
      FindByEmailAppended(users[1..], d);
    }
  }

  /**
   * Signing up and then logging in with the same email and password succeeds, with
   * the role chosen at sign-up and a token for the new user.
   */
  lemma RegisterThenLogin(users: seq<Doc<User>>, newId: Id, email: string, password: string,
                          signUpCode: Option<string>, configured: string,
                          hash: string -> string, sign: AuthPayload -> string)
    requires FindByEmail(users, email).None?
    ensures var role := RoleFor(signUpCode, configured);
      Login(users + [Doc(newId, NewUser(email, hash(password), Some(role)))], email, Some(password), hash, sign)
        == AuthReply(200, "", Some(sign(AuthPayload(newId, role))), Some(role))
  {
    var role := RoleFor(signUpCode, configured);
    FindByEmailAppended(users, Doc(newId, NewUser(email, hash(password), Some(role))));
  }

  /**
   * With a token scheme where `verify` accepts what `sign` produced, the token of a
   * successful login authenticates as that user and role.
   */
  lemma LoginTokenAuthenticates(users: seq<Doc<User>>, email: string, password: string,
                                hash: string -> string, sign: AuthPayload -> string,
                                verify: string -> Option<AuthPayload>)
    requires Login(users, email, Some(password), hash, sign).status == 200
    requires forall p :: ' ' !in sign(p) && verify(sign(p)) == Some(p)
    ensures var d := FindByEmail(users, email).value;
      Authenticate(Some(BearerPrefix + Login(users, email, Some(password), hash, sign).token.value), verify)
        == Next(AuthPayload(d.id, d.body.role))
  {
    var d := FindByEmail(users, email).value;
    var t := sign(AuthPayload(d.id, d.body.role));
    BearerTokenIsSecondPiece(t, "");
    assert StartsWith(BearerPrefix + t, BearerPrefix);
  }
}
