/**
 * src/middleware/authMiddleware.ts: reading the `Authorization: Bearer <token>` header
 * (section 2.1 of RFC 6750) and admitting the request as the token's user.
 * `verifyAccessToken` is a foreign library call and enters as the parameter `verify`
 * (None where it throws).
 */
module AuthMiddleware {
  import opened Wrappers
  import opened Records
  import opened Text

  /** The verified token's claims. */
  datatype Payload = Payload(sub: Id, email: string, name: string)

  /** `req.user` */
  datatype AuthUser = AuthUser(id: Id, email: string, name: string)

  /** A 401 answer, or the request passed on as `user`. */
  datatype Outcome = Reject(status: int, message: string) | Proceed(user: AuthUser)

  const MissingHeader := Reject(401, "Missing Authorization header")
  const InvalidHeader := Reject(401, "Invalid Authorization header")
  const InvalidToken := Reject(401, "Invalid or expired token")

  /** `const [scheme, token] = header.split(' ')`: the first field and, if there is one, the second. */
  function Fields(header: string): (string, Option<string>) {
    var parts := Split(header, ' ');
    (parts[0], if |parts| >= 2 then Some(parts[1]) else None)
  }

  /** The middleware's decision for a header value (None when the header is absent). */
  function Authorize(header: Option<string>, verify: string -> Option<Payload>): (r: Outcome)
    ensures header.None? || header.value == "" ==> r == MissingHeader
    ensures r.Reject? ==> r.status == 401
  {
    if header.None? || header.value == "" then MissingHeader
    else Decide(Fields(header.value), verify)
  }

  /** The decision for a present header, from its first two fields. */
  function Decide(fields: (string, Option<string>), verify: string -> Option<Payload>): Outcome {
    var (scheme, token) := fields;
    if ToLower(scheme) != "bearer" || token.None? || token.value == "" then InvalidHeader
    else match verify(token.value)
      case None => InvalidToken
      case Some(p) => Proceed(AuthUser(p.sub, p.email, p.name))
  }

  /**
   * A request gets through exactly when the header is present, its first field is "bearer" in
   * any letter case, its second field is present and non-empty, and that token verifies; the
   * user is then the token's subject, email and name. A header that is present but fails the
   * scheme or token test is "Invalid Authorization header", a token that does not verify
   * "Invalid or expired token".
   */
  lemma {:induction false} AuthorizeMeaning(header: string, verify: string -> Option<Payload>)
    requires header != ""
    ensures var (scheme, token) := Fields(header);
      var wellFormed := SameIgnoringCase(scheme, "bearer") && token.Some? && token.value != "";
      && (!wellFormed ==> Authorize(Some(header), verify) == InvalidHeader)
      && (wellFormed && verify(token.value).None? ==> Authorize(Some(header), verify) == InvalidToken)
      && (wellFormed && verify(token.value).Some? ==>
            var p := verify(token.value).value;
            Authorize(Some(header), verify) == Proceed(AuthUser(p.sub, p.email, p.name)))
  {
    LowerEqualsIgnoringCase(Fields(header).0, "bearer");
  }

  /** A header with a space after a space-free first field: that field, then the next one. */
  lemma FieldsOf(scheme: string, rest: string)
    requires ' ' !in scheme
    ensures Fields(scheme + " " + rest) == (scheme, Some(Split(rest, ' ')[0]))
  {
    assert scheme + " " + rest == scheme + [' '] + rest;
    SplitFirst(scheme, ' ', rest);
  }

  /** Headers with the same token and the same lower-cased scheme get the same decision. */
  lemma SameFieldsSameOutcome(h1: string, h2: string, verify: string -> Option<Payload>)
    requires h1 != "" && h2 != ""
    requires Fields(h1).1 == Fields(h2).1 && ToLower(Fields(h1).0) == ToLower(Fields(h2).0)
    ensures Authorize(Some(h1), verify) == Authorize(Some(h2), verify)
  {
  }

  /** A scheme equal to "bearer" up to case has no space in it. */
  lemma BearerHasNoSpace(scheme: string)
    requires SameIgnoringCase(scheme, "bearer")
    ensures ' ' !in scheme
  {
    var word := "bearer";
    forall i | 0 <= i < |scheme| ensures scheme[i] != ' ' {
      assert 'a' <= word[i] <= 'z';
    }
  }

  /** The scheme's letter case does not matter: any casing of "bearer" acts as "bearer". */
  lemma SchemeCaseInsensitive(scheme: string, rest: string, verify: string -> Option<Payload>)
    requires SameIgnoringCase(scheme, "bearer")
    ensures Authorize(Some(scheme + " " + rest), verify) == Authorize(Some("bearer " + rest), verify)
  {
    BearerHasNoSpace(scheme);
    FieldsOf(scheme, rest);
    assert "bearer " + rest == "bearer" + " " + rest;
    FieldsOf("bearer", rest);
    LowerEqualsIgnoringCase(scheme, "bearer");
    LowerEqualsIgnoringCase("bearer", "bearer");
    SameFieldsSameOutcome(scheme + " " + rest, "bearer " + rest, verify);
  }

  /** Only the first two space-separated fields are read: anything after a second space is ignored. */
  lemma OnlyFirstTwoFields(scheme: string, token: string, rest: string, verify: string -> Option<Payload>)
    requires ' ' !in scheme && ' ' !in token
    ensures Authorize(Some(scheme + " " + token + " " + rest), verify) == Authorize(Some(scheme + " " + token), verify)
  {
    FieldsOfTwo(scheme, token, rest);
    var long, short := scheme + " " + token + " " + rest, scheme + " " + token;
    assert long[|scheme|] == ' ' && short[|scheme|] == ' ';
  }

  /** With a space-free scheme and token, the fields are those two, whatever follows a second space. */
  lemma FieldsOfTwo(scheme: string, token: string, rest: string)
    requires ' ' !in scheme && ' ' !in token
    ensures Fields(scheme + " " + token + " " + rest) == (scheme, Some(token))
    ensures Fields(scheme + " " + token) == (scheme, Some(token))
  {
    assert scheme + " " + token + " " + rest == scheme + " " + (token + " " + rest);
    FieldsOf(scheme, token + " " + rest);
    FieldsOf(scheme, token);
    assert token + " " + rest == token + [' '] + rest;
    SplitFirst(token, ' ', rest);
  }

  /** The request as the middleware sees and changes it. */
  class Request {
    /** `req.headers.authorization` */
    const authorization: Option<string>
    /** `req.user` */
    var user: Option<AuthUser>
    /** How many times `next()` has been called. */
    var nextCalls: nat
    /** The (status, message) sent back, if any. */
    var response: Option<(int, string)>

    constructor (authorization: Option<string>)
      ensures this.authorization == authorization && user.None? && nextCalls == 0 && response.None?
    {
      this.authorization := authorization;
      user, nextCalls, response := None, 0, None;
    }
  }

  /**
   * `authMiddleware`: a rejection answers 401 with its message, leaves `req.user` as it was and
   * does not call `next`; admission sets `req.user` and calls `next` exactly once.
   */
  method Handle(req: Request, verify: string -> Option<Payload>)
    modifies req
    ensures match Authorize(req.authorization, verify)
      case Reject(status, message) =>
        req.response == Some((status, message)) && req.user == old(req.user) && req.nextCalls == old(req.nextCalls)
      case Proceed(u) =>
        req.user == Some(u) && req.nextCalls == old(req.nextCalls) + 1 && req.response == old(req.response)
  {
    var header := req.authorization;
    if header.None? || header.value == "" {
      req.response := Some((401, "Missing Authorization header"));
      return;
    }
    var parts := Split(header.value, ' ');
    var scheme := parts[0];
    var token := if |parts| >= 2 then Some(parts[1]) else None;
    if ToLower(scheme) != "bearer" || token.None? || token.value == "" {
      req.response := Some((401, "Invalid Authorization header"));
      return;
    }
    var payload := verify(token.value);
    if payload.None? {
      req.response := Some((401, "Invalid or expired token"));
      return;
    }
    req.user := Some(AuthUser(payload.value.sub, payload.value.email, payload.value.name));
    req.nextCalls := req.nextCalls + 1;
  }
}
