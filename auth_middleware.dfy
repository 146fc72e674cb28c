/** `authenticateToken`: the bearer-header gate in front of the protected
    routes. It reads the `Authorization` header, requires the exact,
    case-sensitive prefix "Bearer " (a narrower form of the scheme in
    section 2.1 of RFC 6750), and lets the request through only when the
    rest of the header is a stored token that has not expired. */
module AuthMiddleware {

  import opened Wrappers
  import opened Text
  import opened Records
  import opened DataStore
  import opened Registry
  import opened AuthRoutes

  const Scheme := "Bearer "

  /** The token of an `Authorization` header: everything after "Bearer ". */
  function BearerToken(header: Option<string>): (r: Option<string>)
    ensures r.Some? <==> Truthy(header) && StartsWith(header.value, Scheme)
    ensures r.Some? ==> header.value == Scheme + r.value
  {
    if !Truthy(header) || !StartsWith(header.value, Scheme) then None
    else
      assert header.value == header.value[..7] + header.value[7..];
      Some(header.value[7..])
  }

  /** Writing a token after the scheme and reading it back gives the token. */
  lemma {:induction false} BearerRoundTrip(token: string)
    ensures BearerToken(Some(Scheme + token)) == Some(token)
  {
    assert (Scheme + token)[..7] == Scheme;
    assert (Scheme + token)[7..] == token;
  }

  /** The gate's answer (401 or the token's record, which the handler
      behind it sees as `req.tokenData`) and the token map afterwards. */
  datatype Gate = Gate(outcome: Outcome<TokenData>, tokens: map<string, TokenData>)

  /** The gate on a token map. */
  function Authenticate(tokens: map<string, TokenData>, header: Option<string>, now: int): (r: Gate)
    ensures BearerToken(header).None? ==> r == Gate(Failure(401, "Unauthorized"), tokens)
    ensures BearerToken(header).Some? ==> r.tokens == ValidateTokenIn(tokens, BearerToken(header).value, now).tokens
    ensures r.outcome.Failure? ==> r.outcome == Failure(401, "Unauthorized")
    ensures r.outcome.Success? <==>
              && BearerToken(header).Some?
              && BearerToken(header).value in tokens
              && now - tokens[BearerToken(header).value].createdAt <= 3600000
    ensures r.outcome.Success? ==> r.outcome.value == tokens[BearerToken(header).value]
  {
    match BearerToken(header)
    case None => Gate(Failure(401, "Unauthorized"), tokens)
    case Some(token) =>
      var check := ValidateTokenIn(tokens, token, now);
      match check.data
      case None => Gate(Failure(401, "Unauthorized"), check.tokens)
      case Some(data) => Gate(Success(200, data), check.tokens)
  }

  /** The gate against the store; a refused expired token is evicted. */
  method AuthenticateRequest(store: Store, header: Option<string>, now: int) returns (r: Outcome<TokenData>)
    modifies store`tokens
    ensures Gate(r, store.tokens) == Authenticate(old(store.tokens), header, now)
  {
    var token := BearerToken(header);
    if token.None? {
      return Failure(401, "Unauthorized");
    }
    var data := store.ValidateToken(token.value, now);
    if data.None? {
      return Failure(401, "Unauthorized");
    }
    r := Success(200, data.value);
  }

  /** A token issued by a successful API-key login at `now` opens the gate
      for exactly the next 3600000 ms and carries the login's method. */
  lemma {:induction false} ApiKeyTokenOpensGate(tokens: map<string, TokenData>, apiKey: Option<string>,
                                                configured: Option<string>, uuid: string, now: int, later: int)
    requires ApiKeyLogin(tokens, apiKey, configured, uuid, now).reply.Success?
    ensures var login := ApiKeyLogin(tokens, apiKey, configured, uuid, now);
            var gate := Authenticate(login.tokens, Some(Scheme + login.reply.value.accessToken), later);
            && (gate.outcome.Success? <==> later - now <= 3600000)
            && (gate.outcome.Success? ==> gate.outcome.value == TokenData(ApiKey, now))
  {
    var login := ApiKeyLogin(tokens, apiKey, configured, uuid, now);
    BearerRoundTrip(login.reply.value.accessToken);
  }

  /** The same for a credentials login. */
  lemma {:induction false} CredentialsTokenOpensGate(tokens: map<string, TokenData>, username: Option<string>,
                                                     password: Option<string>, validUsername: Option<string>,
                                                     validPassword: Option<string>, uuid: string,
                                                     now: int, later: int)
    requires CredentialsLogin(tokens, username, password, validUsername, validPassword, uuid, now).reply.Success?
    ensures var login := CredentialsLogin(tokens, username, password, validUsername, validPassword, uuid, now);
            var gate := Authenticate(login.tokens, Some(Scheme + login.reply.value.accessToken), later);
            && (gate.outcome.Success? <==> later - now <= 3600000)
            && (gate.outcome.Success? ==> gate.outcome.value == TokenData(Credentials, now))
  {
    var login := CredentialsLogin(tokens, username, password, validUsername, validPassword, uuid, now);
    BearerRoundTrip(login.reply.value.accessToken);
  }

  /** The names every plain JavaScript object inherits from
      `Object.prototype`; a lookup of one of them on the parsed token file
      finds a function (or the prototype itself), never `undefined`. */
  const InheritedNames: set<string> := {
    "constructor", "toString", "toLocaleString", "valueOf", "hasOwnProperty",
    "isPrototypeOf", "propertyIsEnumerable", "__proto__", "__defineGetter__",
    "__defineSetter__", "__lookupGetter__", "__lookupSetter__"
  }

  /** What `tokens[token]` yields on the parsed object. */
  datatype Property = Own(data: TokenData) | Inherited | Undefined

  function LookupAsWritten(tokens: map<string, TokenData>, token: string): (p: Property)
    ensures p.Own? <==> token in tokens
    ensures p.Inherited? <==> token !in tokens && token in InheritedNames
  {
    if token in tokens then Own(tokens[token])
    else if token in InheritedNames then Inherited
    else Undefined
  }

  /** `validateToken` as written: any truthy property passes the `!tokenData`
      test, and for an inherited member `createdAt` is undefined, so the
      elapsed time is NaN and `NaN > 3600000` is false: it is accepted. */
  function ValidateTokenAsWritten(tokens: map<string, TokenData>, token: string, now: int): (accepted: bool)
    ensures token !in InheritedNames ==> (accepted <==> ValidateTokenIn(tokens, token, now).data.Some?)
    ensures token in InheritedNames && token !in tokens ==> accepted
  {
    match LookupAsWritten(tokens, token)
    case Undefined => false
    case Inherited => true
    case Own(data) => !Expired(data, now)
  }

  /** The gate as written: true when `next()` is called. */
  function AuthenticateAsWritten(tokens: map<string, TokenData>, header: Option<string>, now: int): (passes: bool)
    ensures BearerToken(header).None? ==> !passes
    ensures BearerToken(header).Some? && BearerToken(header).value !in InheritedNames ==>
              (passes <==> Authenticate(tokens, header, now).outcome.Success?)
  {
    match BearerToken(header)
    case None => false
    case Some(token) => ValidateTokenAsWritten(tokens, token, now)
  }

  /** With no token issued at all, "Bearer toString" passes the gate as
      written, while the own-key lookup of `Authenticate` refuses it. */
  lemma {:induction false} PrototypeNameOpensGate(now: int)
    ensures AuthenticateAsWritten(map[], Some("Bearer toString"), now)
    ensures Authenticate(map[], Some("Bearer toString"), now).outcome == Failure(401, "Unauthorized")
  {
    BearerRoundTrip("toString");
    assert "Bearer toString" == Scheme + "toString";
  }
}
