/** The login handler: credentials are checked against the stored user, and a
    session token is minted whose lifetime the client may shorten but never
    lengthen past an hour. */
module HandlerLogin {
  import opened Wrappers
  import opened Uuids
  import opened Authentication
  import opened Http

  /** The longest session-token lifetime, in seconds. */
  const MaxExpirationInSeconds: int := 3600

  const MinInt64: int := -0x8000_0000_0000_0000
  const MaxInt64: int := 0x7FFF_FFFF_FFFF_FFFF
  const TwoTo64: int := 0x1_0000_0000_0000_0000

  /** Go's int: a JSON number outside this range does not decode. */
  type Int64 = x: int | -0x8000_0000_0000_0000 <= x <= 0x7FFF_FFFF_FFFF_FFFF

  /** The login request body; `expiresInSeconds` is None when the field is absent. */
  datatype LoginRequest = LoginRequest(email: string, password: string, expiresInSeconds: Option<Int64>)

  /** database.User as far as login reads it. */
  datatype User = User(id: Uuid, createdAt: int, updatedAt: int, email: string, hashedPassword: string)

  datatype LoginReply =
    | LoginFailed(status: nat, message: string)
    | LoggedIn(id: Uuid, createdAt: int, updatedAt: int, email: string, token: string)

  const BadCredentials: string := "incorrect email or password"

  /** The lifetime in seconds the handler settles on: an hour when the client
      names none, the client's value when it is at most an hour (zero and
      negative values included), an hour otherwise. */
  function TokenLifetime(requested: Option<Int64>): (seconds: Int64)
    ensures seconds <= MaxExpirationInSeconds
    ensures requested.None? ==> seconds == MaxExpirationInSeconds
    ensures requested.Some? ==>
      seconds <= requested.value
      && (seconds == requested.value <==> requested.value <= MaxExpirationInSeconds)
    ensures requested.Some? && requested.value > MaxExpirationInSeconds ==> seconds == MaxExpirationInSeconds
  {
    if requested.None? || requested.value > MaxExpirationInSeconds then MaxExpirationInSeconds
    else requested.value
  }

  /** Go's int64 arithmetic: the result is the one int64 congruent to `x`
      modulo 2^64. */
  function Wrap64(x: int): (r: int)
    ensures MinInt64 <= r <= MaxInt64
    ensures (r - x) % TwoTo64 == 0
    ensures MinInt64 <= x <= MaxInt64 ==> r == x
  {
    var r := (x - MinInt64) % TwoTo64 + MinInt64;
    assert r - x == ((x - MinInt64) % TwoTo64) - (x - MinInt64);
    r
  }

  /** time.Duration(expiresIn) * time.Second as written: a product outside
      int64 wraps around. */
  function LifetimeDurationAsWritten(seconds: int): (d: int)
    ensures MinInt64 <= d <= MaxInt64
    ensures (d - seconds * Second) % TwoTo64 == 0
    ensures MinInt64 <= seconds * Second <= MaxInt64 ==> d == seconds * Second
  {
    Wrap64(seconds * Second)
  }

  /** The conversion the handler means: `seconds` as a Duration, clamped to
      the int64 range where the product does not fit. */
  function LifetimeDuration(seconds: int): (d: int)
    ensures MinInt64 <= d <= MaxInt64
    ensures MinInt64 <= seconds * Second <= MaxInt64 ==> d == seconds * Second
    ensures d <= seconds * Second || d == MinInt64
    ensures seconds * Second > MaxInt64 ==> d == MaxInt64
    ensures seconds * Second < MinInt64 ==> d == MinInt64
  {
    if seconds * Second < MinInt64 then MinInt64
    else if seconds * Second > MaxInt64 then MaxInt64
    else seconds * Second
  }

  /** The wrap-around: a client asking for -9223372037 seconds gets a token
      that lives some 292 years instead of being already expired. */
  lemma AsWrittenNegativeLifetimeWraps()
    ensures TokenLifetime(Some(-9223372037)) == -9223372037
    ensures LifetimeDurationAsWritten(-9223372037) == 9223372036709551616
    ensures LifetimeDurationAsWritten(-9223372037) / Second == 9223372036
  {
  }

  /** With the clamped conversion, a token never outlives the hour, whatever
      the client asks for, and it lives exactly as long as asked when the
      product fits. */
  lemma LifetimeNeverAboveCap(requested: Option<Int64>, now: int)
    ensures var c := MintedClaims(Nil, now, LifetimeDuration(TokenLifetime(requested)));
      c.expiresAt.value - c.issuedAt.value <= MaxExpirationInSeconds
    ensures var seconds := TokenLifetime(requested);
      MinInt64 <= seconds * Second ==>
      MintedClaims(Nil, now, LifetimeDuration(seconds)).expiresAt.value == now + seconds
  {
  }

  /** handlerLogin. A body that does not decode is answered 500; an unknown
      email and a wrong password get the same 401; only then is the lifetime
      settled and the token minted, a signing error being answered 500 with
      its text. On success the reply carries the user's public fields and a
      session token for the user's own ID. The token lifetime is converted to
      a Duration with the clamped LifetimeDuration, not with the wrapping
      product handler_login.go writes. */
  method HandleLogin(
    users: map<string, User>, bcryptMatches: (string, string) -> bool, encode: Encoder,
    tokenSecret: string, now: int, request: Result<LoginRequest, string>)
    returns (reply: LoginReply)
    ensures request.Err? ==> reply == LoginFailed(StatusInternalServerError, "")
    ensures request.Ok? && request.value.email !in users ==>
      reply == LoginFailed(StatusUnauthorized, BadCredentials)
    ensures (request.Ok? && request.value.email in users
             && !CheckPasswordHash(bcryptMatches, request.value.password, users[request.value.email].hashedPassword)) ==>
      reply == LoginFailed(StatusUnauthorized, BadCredentials)
    ensures reply.LoggedIn? <==>
      && request.Ok? && request.value.email in users
      && var user := users[request.value.email];
      && CheckPasswordHash(bcryptMatches, request.value.password, user.hashedPassword)
      && MakeJWT(encode, user.id, tokenSecret, now, LifetimeDuration(TokenLifetime(request.value.expiresInSeconds))).Ok?
    ensures (request.Ok? && request.value.email in users && !reply.LoggedIn?
             && CheckPasswordHash(bcryptMatches, request.value.password, users[request.value.email].hashedPassword)) ==>
      reply.LoginFailed? && reply.status == StatusInternalServerError
    ensures (request.Ok? && request.value.email in users
             && CheckPasswordHash(bcryptMatches, request.value.password, users[request.value.email].hashedPassword)
             && MakeJWT(encode, users[request.value.email].id, tokenSecret, now,
                        LifetimeDuration(TokenLifetime(request.value.expiresInSeconds))).Err?) ==>
      reply == LoginFailed(StatusInternalServerError,
        MakeJWT(encode, users[request.value.email].id, tokenSecret, now,
                LifetimeDuration(TokenLifetime(request.value.expiresInSeconds))).error.reason)
    ensures reply.LoggedIn? ==>
      var user := users[request.value.email];
      && reply == LoggedIn(user.id, user.createdAt, user.updatedAt, user.email, reply.token)
      && MakeJWT(encode, user.id, tokenSecret, now, LifetimeDuration(TokenLifetime(request.value.expiresInSeconds)))
         == Ok(reply.token)
  {
    if request.Err? {
      return LoginFailed(StatusInternalServerError, "");
    }
    var req := request.value;
    if req.email !in users {
      return LoginFailed(StatusUnauthorized, BadCredentials);
    }
    var user := users[req.email];
    if !CheckPasswordHash(bcryptMatches, req.password, user.hashedPassword) {
      return LoginFailed(StatusUnauthorized, BadCredentials);
    }

    var expiresIn: Int64 := MaxExpirationInSeconds;
    if req.expiresInSeconds.Some? {
      expiresIn := req.expiresInSeconds.value;
    }
    if expiresIn > MaxExpirationInSeconds {
      expiresIn := MaxExpirationInSeconds;
    }
    assert expiresIn == TokenLifetime(req.expiresInSeconds);

    match MakeJWT(encode, user.id, tokenSecret, now, LifetimeDuration(expiresIn))
    case Err(e) =>
      return LoginFailed(StatusInternalServerError, if e.SigningFailed? then e.reason else "");
    case Ok(tokenString) =>
      return LoggedIn(user.id, user.createdAt, user.updatedAt, user.email, tokenString);
  }
}
