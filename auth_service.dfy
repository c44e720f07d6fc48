/**
 * src/services/authService.ts: registration and login over the users table. Password hashing,
 * password comparison and token signing are foreign libraries and enter as functions in a
 * `Crypto` value.
 */
module AuthService {
  import opened Wrappers
  import opened Records
  import opened Errors
  import opened UserRepository

  const EmailTaken := AppError("Email already registered", 409)
  const InvalidCredentials := AppError("Invalid credentials", 401)

  /** What `signAccessToken` signs: subject, email and name. */
  datatype TokenClaims = TokenClaims(sub: Id, email: string, name: string)

  /** `hashPassword`, `comparePassword(plain, hash)` and `signAccessToken`. */
  datatype Crypto = Crypto(hash: string -> string, compare: (string, string) -> bool, sign: TokenClaims -> string)

  /** The bcrypt contract: a password matches its own hash. */
  ghost predicate AcceptsOwnHash(c: Crypto) {
    forall p :: c.compare(p, c.hash(p))
  }

  /** The public part of a user: id, email and name. */
  datatype PublicUser = PublicUser(id: Id, email: string, name: string)

  datatype AuthResponse = AuthResponse(token: string, user: PublicUser)

  /** The response for a user: a token signed over exactly its id, email and name, and those fields. */
  function ResponseFor(u: User, c: Crypto): (r: AuthResponse)
    ensures r.user.id == u.id && r.user.email == u.email && r.user.name == u.name
    ensures r.token == c.sign(TokenClaims(u.id, u.email, u.name))
  {
    var claims := TokenClaims(u.id, u.email, u.name);
    AuthResponse(c.sign(claims), PublicUser(claims.sub, claims.email, claims.name))
  }

  /** Two users with the same id, email and name get the same response, whatever else differs. */
  lemma ResponseIgnoresSecrets(u1: User, u2: User, c: Crypto)
    requires u1.id == u2.id && u1.email == u2.email && u1.name == u2.name
    ensures ResponseFor(u1, c) == ResponseFor(u2, c)
  {
  }

  /**
   * `registerUser`: 409 "Email already registered", with no user created, when the email is
   * taken; otherwise a new user stored with the hash of the password (never the password) and
   * answered with its id, email, name and a token over them. Emails stay unique.
   */
  method RegisterUser(users: UserTable, c: Crypto, email: string, password: string, name: string)
    returns (r: Result<AuthResponse>)
    requires users.Valid()
    modifies users`rows, users`nextId
    ensures users.Valid()
    ensures (exists i :: 0 <= i < |old(users.rows)| && old(users.rows)[i].email == email) ==>
      r == Fail(EmailTaken) && users.rows == old(users.rows)
    ensures (forall i :: 0 <= i < |old(users.rows)| ==> old(users.rows)[i].email != email) ==>
      && users.rows == old(users.rows) + [UserRow(old(users.nextId), email, name, c.hash(password), users.clock)]
      && r == Ok(AuthResponse(c.sign(TokenClaims(old(users.nextId), email, name)), PublicUser(old(users.nextId), email, name)))
    ensures EmailsUnique(users.rows)
  {
    var existing := users.FindUserByEmail(email);
    if existing.Some? {
      return Fail(EmailTaken);
    }
    var passwordHash := c.hash(password);
    var user := users.CreateUser(email, passwordHash, name);
    return Ok(ResponseFor(user, c));
  }

  /**
   * `authenticateUser`: the same 401 "Invalid credentials" for an unknown email and for a wrong
   * password; on success the stored user's id, email and name with a token over them.
   */
  method AuthenticateUser(users: UserTable, c: Crypto, email: string, password: string)
    returns (r: Result<AuthResponse>)
    requires users.Valid()
    ensures (forall i :: 0 <= i < |users.rows| ==> users.rows[i].email != email) ==> r == Fail(InvalidCredentials)
    ensures forall i :: 0 <= i < |users.rows| && users.rows[i].email == email ==>
      r == if c.compare(password, users.rows[i].password_hash)
           then Ok(ResponseFor(MapRowToUser(users.rows[i]), c))
           else Fail(InvalidCredentials)
    ensures r.Fail? ==> r.error == InvalidCredentials
  {
    var user := users.FindUserByEmail(email);
    if user.None? {
      return Fail(InvalidCredentials);
    }
    var passwordValid := c.compare(password, user.value.passwordHash);
    if !passwordValid {
      return Fail(InvalidCredentials);
    }
    return Ok(ResponseFor(user.value, c));
  }

  /**
   * Login after registration: in the rows a registration leaves, the new row is the only one
   * with its email, and with hashing that accepts a password's own hash it lets the same
   * password in, answering as the stored user.
   */
  lemma LoginAfterRegister(rows: seq<UserRow>, c: Crypto, id: Id, email: string, password: string,
                           name: string, now: Timestamp)
    requires AcceptsOwnHash(c) && EmailsUnique(rows)
    requires forall i :: 0 <= i < |rows| ==> rows[i].email != email
    ensures var after := rows + [UserRow(id, email, name, c.hash(password), now)];
      && EmailsUnique(after)
      && (forall i :: 0 <= i < |after| && after[i].email == email ==> i == |rows|)
      && c.compare(password, after[|rows|].password_hash)
      && ResponseFor(MapRowToUser(after[|rows|]), c).user == PublicUser(id, email, name)
  {
    var after := rows + [UserRow(id, email, name, c.hash(password), now)];
    assert forall i :: 0 <= i < |rows| ==> after[i] == rows[i];
  }
}
