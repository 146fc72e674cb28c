/** The `/auth` login handlers. The configured secrets are parameters
    (`None` is an unset environment variable) and so is the uuid whose
    first eight characters, upper-cased, end the issued token. */
module AuthRoutes {

  import opened Wrappers
  import opened Text
  import opened Records
  import opened Registry

  /** The body of a successful login: `{accessToken, method, expiresIn}`. */
  datatype LoginReply = LoginReply(accessToken: string, loginMethod: string, expiresIn: int)

  /** A login's answer together with the token map it leaves behind. */
  datatype LoginResult = LoginResult(reply: Outcome<LoginReply>, tokens: map<string, TokenData>)

  /** `expiresIn` of every login reply, in seconds. */
  const ExpiresIn: int := 3600

  const ApiKeyPrefix := "BEARER-APIKEY-"
  const UserPrefix := "BEARER-USER-"

  /** `substring(0, 8)`: the first eight characters, or all of a shorter string. */
  function First8(s: string): (r: string)
    ensures |r| == if |s| < 8 then |s| else 8
    ensures s == r + s[|r|..]
  {
    if |s| < 8 then s else s[..8]
  }

  /** The token a login issues: the prefix, then the first eight characters
      of the uuid upper-cased. */
  function IssuedToken(prefix: string, uuid: string): (t: string)
    ensures StartsWith(t, prefix)
    ensures t[..|prefix|] == prefix && IsUpper(t[|prefix|..])
    ensures |t| == |prefix| + (if |uuid| < 8 then |uuid| else 8)
  {
    var suffix := Upper(First8(uuid));
    assert (prefix + suffix)[|prefix|..] == suffix;
    prefix + suffix
  }

  /** A successful login: the one token saved with `createdAt = now`. The
      `expiresIn` it announces, in seconds, is the lifetime `validateToken`
      grants, in milliseconds: the token is accepted to the last millisecond
      of it and refused one millisecond later. */
  function Issue(tokens: map<string, TokenData>, prefix: string, m: LoginMethod, uuid: string, now: int)
    : (r: LoginResult)
    ensures r.reply == Success(200, LoginReply(IssuedToken(prefix, uuid), MethodName(m), ExpiresIn))
    ensures r.tokens == tokens[IssuedToken(prefix, uuid) := TokenData(m, now)]
    ensures var token := r.reply.value.accessToken;
            && ValidateTokenIn(r.tokens, token, now + r.reply.value.expiresIn * 1000).data == Some(TokenData(m, now))
            && ValidateTokenIn(r.tokens, token, now + r.reply.value.expiresIn * 1000 + 1).data == None
  {
    TokenLifetimeExact(tokens, IssuedToken(prefix, uuid), m, now);
    var token := IssuedToken(prefix, uuid);
    LoginResult(Success(200, LoginReply(token, MethodName(m), ExpiresIn)), tokens[token := TokenData(m, now)])
  }

  /** POST /auth/login/apikey. */
  function ApiKeyLogin(tokens: map<string, TokenData>, apiKey: Option<string>, configured: Option<string>,
                       uuid: string, now: int): (r: LoginResult)
    ensures !Truthy(apiKey) ==> r == LoginResult(Failure(400, "apiKey is required"), tokens)
    ensures Truthy(apiKey) && apiKey != configured ==> r == LoginResult(Failure(401, "Invalid API key"), tokens)
    ensures r.reply.Success? <==> Truthy(apiKey) && apiKey == configured
    ensures r.reply.Success? ==>
              var token := r.reply.value.accessToken;
              && StartsWith(token, ApiKeyPrefix)
              && r.reply.value.loginMethod == "API_KEY" && r.reply.value.expiresIn == 3600
              && r.tokens == tokens[token := TokenData(ApiKey, now)]
  {
    if !Truthy(apiKey) then LoginResult(Failure(400, "apiKey is required"), tokens)
    else if apiKey != configured then LoginResult(Failure(401, "Invalid API key"), tokens)
    else Issue(tokens, ApiKeyPrefix, ApiKey, uuid, now)
  }

  /** POST /auth/login: both fields must be truthy, then both must match. */
  function CredentialsLogin(tokens: map<string, TokenData>, username: Option<string>, password: Option<string>,
                            validUsername: Option<string>, validPassword: Option<string>,
                            uuid: string, now: int): (r: LoginResult)
    ensures !Truthy(username) || !Truthy(password) ==>
              r == LoginResult(Failure(400, "username and password are required"), tokens)
    ensures Truthy(username) && Truthy(password) && (username != validUsername || password != validPassword) ==>
              r == LoginResult(Failure(401, "Invalid credentials"), tokens)
    ensures r.reply.Success? <==>
              Truthy(username) && Truthy(password) && username == validUsername && password == validPassword
    ensures r.reply.Success? ==>
              var token := r.reply.value.accessToken;
              && StartsWith(token, UserPrefix)
              && r.reply.value.loginMethod == "CREDENTIALS" && r.reply.value.expiresIn == 3600
              && r.tokens == tokens[token := TokenData(Credentials, now)]
  {
    if !Truthy(username) || !Truthy(password) then
      LoginResult(Failure(400, "username and password are required"), tokens)
    else if username != validUsername || password != validPassword then
      LoginResult(Failure(401, "Invalid credentials"), tokens)
    else Issue(tokens, UserPrefix, Credentials, uuid, now)
  }

  /** The two kinds of issued token never collide, whatever the uuids. */
  lemma {:induction false} IssuedTokensDistinct(uuid1: string, uuid2: string)
    ensures IssuedToken(ApiKeyPrefix, uuid1) != IssuedToken(UserPrefix, uuid2)
  {
    var a := IssuedToken(ApiKeyPrefix, uuid1);
    var b := IssuedToken(UserPrefix, uuid2);
    assert a[7] == 'A' && b[7] == 'U';
  }

  /** The API-key handler against the store: saves the token it issues. */
  method LoginWithApiKey(store: Store, apiKey: Option<string>, configured: Option<string>, uuid: string, now: int)
    returns (r: Outcome<LoginReply>)
    modifies store`tokens
    ensures LoginResult(r, store.tokens) == ApiKeyLogin(old(store.tokens), apiKey, configured, uuid, now)
  {
    if !Truthy(apiKey) {
      return Failure(400, "apiKey is required");
    }
    if apiKey != configured {
      return Failure(401, "Invalid API key");
    }
    var accessToken := ApiKeyPrefix + Upper(First8(uuid));
    store.SaveToken(accessToken, ApiKey, now);
    r := Success(200, LoginReply(accessToken, MethodName(ApiKey), ExpiresIn));
  }

  /** The credentials handler against the store. */
  method LoginWithCredentials(store: Store, username: Option<string>, password: Option<string>,
                              validUsername: Option<string>, validPassword: Option<string>, uuid: string, now: int)
    returns (r: Outcome<LoginReply>)
    modifies store`tokens
    ensures LoginResult(r, store.tokens)
            == CredentialsLogin(old(store.tokens), username, password, validUsername, validPassword, uuid, now)
  {
    if !Truthy(username) || !Truthy(password) {
      return Failure(400, "username and password are required");
    }
    if username != validUsername || password != validPassword {
      return Failure(401, "Invalid credentials");
    }
    var accessToken := UserPrefix + Upper(First8(uuid));
    store.SaveToken(accessToken, Credentials, now);
    r := Success(200, LoginReply(accessToken, MethodName(Credentials), ExpiresIn));
  }
}
