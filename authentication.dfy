/** The auth package: the bearer-token extractor, the session-token (JWT)
    claims and their validation chain, and the password-hash guard.

    The JWT library is seen through two functions handed in by the caller:
    `encode` builds and signs a token (or gives the signing error's text) and `decode`
    reads one back (None when it is malformed). A decoded token carries the
    key its MAC was computed with: the MAC is taken as perfect, so a
    signature checks under exactly that key. */
module Authentication {
  import opened Wrappers
  import opened Strings
  import Uuids

  datatype HeaderError = MissingHeader | MalformedHeader | MissingTokenString

  /** The steps shared by the two `Authorization` extractors: the header must
      be present, start with `prefix` exactly (case included), and leave a
      non-blank remainder, which is returned trimmed. An absent header reads
      as "", as http.Header.Get gives it. */
  function CredentialAfter(prefix: string, authValue: string): (r: Result<string, HeaderError>)
    ensures r == Err(MissingHeader) <==> authValue == ""
    ensures r == Err(MalformedHeader) <==> authValue != "" && !(prefix <= authValue)
    ensures r == Err(MissingTokenString) <==>
      authValue != "" && prefix <= authValue && AllSpace(authValue[|prefix|..])
    ensures r.Ok? ==>
      prefix <= authValue && r.value != "" && Trimmed(r.value) && Pads(authValue[|prefix|..], r.value)
  {
    if authValue == "" then Err(MissingHeader)
    else if !(prefix <= authValue) then Err(MalformedHeader)
    else
      var rest := authValue[|prefix|..];
      var token := TrimSpace(rest);
      if token == "" then Err(MissingTokenString)
      else Ok(token)
  }

  const BearerPrefix: string := "Bearer "

  /** GetBearerToken. On success the token is the non-empty remainder after
      "Bearer ", with only spaces cut from around it. */
  function GetBearerToken(authValue: string): (r: Result<string, HeaderError>)
    ensures r == Err(MissingHeader) <==> authValue == ""
    ensures r == Err(MalformedHeader) <==> authValue != "" && !(BearerPrefix <= authValue)
    ensures r == Err(MissingTokenString) <==>
      authValue != "" && BearerPrefix <= authValue && AllSpace(authValue[|BearerPrefix|..])
    ensures r.Ok? ==>
      BearerPrefix <= authValue && r.value != "" && Trimmed(r.value)
      && Pads(authValue[|BearerPrefix|..], r.value)
  {
    CredentialAfter(BearerPrefix, authValue)
  }

  /** Any spaces may stand around the credential after the scheme: it comes
      back exactly. */
  lemma CredentialOfPadded(prefix: string, l: string, t: string, r: string)
    requires AllSpace(l) && AllSpace(r) && t != "" && Trimmed(t)
    ensures CredentialAfter(prefix, prefix + l + t + r) == Ok(t)
  {
    var v := prefix + l + t + r;
    assert v == prefix + (l + t + r);
    assert v[|prefix|..] == l + t + r;
    TrimSpacePadded(l, t, r);
  }

  /** GetBearerToken("Bearer " + l + t + r) == t whatever spaces l and r are,
      so with no padding this is the round trip GetBearerToken("Bearer " + t) == t. */
  lemma BearerOfPadded(l: string, t: string, r: string)
    requires AllSpace(l) && AllSpace(r) && t != "" && Trimmed(t)
    ensures GetBearerToken(BearerPrefix + l + t + r) == Ok(t)
  {
    CredentialOfPadded(BearerPrefix, l, t, r);
  }

  lemma BearerRoundTrip(t: string)
    requires t != "" && Trimmed(t)
    ensures GetBearerToken(BearerPrefix + t) == Ok(t)
  {
    CredentialOfPadded(BearerPrefix, "", t, "");
    assert BearerPrefix + "" + t + "" == BearerPrefix + t;
  }

  /** Re-wrapping an extracted token and extracting again is a no-op. */
  lemma BearerIdempotent(authValue: string)
    requires GetBearerToken(authValue).Ok?
    ensures GetBearerToken(BearerPrefix + GetBearerToken(authValue).value) == GetBearerToken(authValue)
  {
    BearerRoundTrip(GetBearerToken(authValue).value);
  }

  /** The scheme is matched exactly: no token without the separating space
      or for a lower-case scheme. */
  lemma BearerRejectsMalformed()
    ensures GetBearerToken("Bearer") == Err(MalformedHeader)
    ensures GetBearerToken("BearerXYZ") == Err(MalformedHeader)
    ensures GetBearerToken("bearer x") == Err(MalformedHeader)
  {
    assert "BearerXYZ"[6] != BearerPrefix[6];
    assert "bearer x"[0] != BearerPrefix[0];
  }

  /** A scheme followed by spaces only carries no token. */
  lemma BearerRejectsBlank()
    ensures GetBearerToken("Bearer    ") == Err(MissingTokenString)
  {
  }

  /** Signing methods by the `alg` header of a JWT. */
  datatype Algorithm =
    | HS256 | HS384 | HS512
    | RS256 | RS384 | RS512 | PS256 | PS384 | PS512
    | ES256 | ES384 | ES512 | EdDSA | NoSigning

  predicate IsHmac(alg: Algorithm) {
    alg.HS256? || alg.HS384? || alg.HS512?
  }

  /** jwt.RegisteredClaims as far as they are set or checked here; times are
      whole seconds since the epoch. */
  datatype Claims = Claims(
    issuer: string,
    subject: string,
    issuedAt: Option<int>,
    expiresAt: Option<int>,
    notBefore: Option<int>)

  /** A token as the library decodes it; `macKey` is the key its signature
      was computed with. */
  datatype Jwt = Jwt(alg: Algorithm, claims: Claims, macKey: string)

  type Encoder = Jwt -> Result<string, string>
  type Decoder = string -> Option<Jwt>

  const Issuer: string := "chirpy"

  /** One second as a Go time.Duration (nanoseconds). */
  const Second: int := 1_000_000_000

  /** The claims MakeJWT signs at `now` for a lifetime of `expiresIn`
      nanoseconds: issuer "chirpy", the user's ID in text form as subject, and
      an expiry `expiresIn` after the issue time, truncated to the second
      (NumericDate keeps whole seconds, rounding down). */
  function MintedClaims(userID: Uuids.Uuid, now: int, expiresIn: int): (c: Claims)
    ensures c.issuer == "chirpy"
    ensures c.subject == Uuids.ToString(userID)
    ensures Uuids.Parse(c.subject) == Some(userID)
    ensures c.issuedAt == Some(now) && c.expiresAt.Some? && c.notBefore.None?
    ensures c.expiresAt.value - now <= expiresIn / Second < c.expiresAt.value - now + 1
  {
    Uuids.ParseToString(userID);
    Claims(Issuer, Uuids.ToString(userID), Some(now), Some(now + expiresIn / Second), None)
  }

  datatype JwtError =
    | SigningFailed(reason: string) | Malformed | UnexpectedSigningMethod | SignatureInvalid
    | Expired | NotValidYet | InvalidSubject

  /** MakeJWT: the minted claims, signed with HS256 under `tokenSecret`. */
  function MakeJWT(encode: Encoder, userID: Uuids.Uuid, tokenSecret: string, now: int, expiresIn: int)
    : (r: Result<string, JwtError>)
    ensures var signed := encode(Jwt(HS256, MintedClaims(userID, now, expiresIn), tokenSecret));
      && (r.Ok? <==> signed.Ok?)
      && (r.Ok? ==> r.value == signed.value)
      && (r.Err? ==> r.error == SigningFailed(signed.error))
  {
    match encode(Jwt(HS256, MintedClaims(userID, now, expiresIn), tokenSecret))
    case Ok(signed) => Ok(signed)
    case Err(reason) => Err(SigningFailed(reason))
  }

  /** The time checks ParseWithClaims makes on registered claims: a token is
      good strictly before its expiry and from its not-before time on; the
      issue time is not checked. */
  predicate Live(c: Claims, now: int) {
    (c.expiresAt.None? || now < c.expiresAt.value)
    && (c.notBefore.None? || now >= c.notBefore.value)
  }

  /** ValidateJWT returns Go's pair: the user ID and an error. */
  datatype Validation = Validation(userID: Uuids.Uuid, err: Option<JwtError>)

  /** ValidateJWT: decode, refuse a non-HMAC method before the key is handed
      out, check the signature under the secret, check the times, and parse the
      subject as a UUID. */
  function ValidateJWT(decode: Decoder, tokenString: string, tokenSecret: string, now: int)
    : (r: Validation)
    ensures r.err.Some? ==> r.userID == Uuids.Nil
    ensures decode(tokenString).Some? && !IsHmac(decode(tokenString).value.alg)
      ==> r == Validation(Uuids.Nil, Some(UnexpectedSigningMethod))
    ensures r.err.None? ==>
      && decode(tokenString).Some?
      && var jwt := decode(tokenString).value;
      && IsHmac(jwt.alg) && jwt.macKey == tokenSecret && Live(jwt.claims, now)
      && Uuids.Parse(jwt.claims.subject) == Some(r.userID)
    ensures (decode(tokenString).Some?
             && IsHmac(decode(tokenString).value.alg) && decode(tokenString).value.macKey == tokenSecret
             && Live(decode(tokenString).value.claims, now)
             && Uuids.Parse(decode(tokenString).value.claims.subject).Some?) ==>
      r == Validation(Uuids.Parse(decode(tokenString).value.claims.subject).value, None)
  {
    match decode(tokenString)
    case None => Validation(Uuids.Nil, Some(Malformed))
    case Some(jwt) =>
      if !IsHmac(jwt.alg) then Validation(Uuids.Nil, Some(UnexpectedSigningMethod))
      else if jwt.macKey != tokenSecret then Validation(Uuids.Nil, Some(SignatureInvalid))
      else if jwt.claims.expiresAt.Some? && now >= jwt.claims.expiresAt.value then
        Validation(Uuids.Nil, Some(Expired))
      else if jwt.claims.notBefore.Some? && now < jwt.claims.notBefore.value then
        Validation(Uuids.Nil, Some(NotValidYet))
      else match Uuids.Parse(jwt.claims.subject)
        case None => Validation(Uuids.Nil, Some(InvalidSubject))
        case Some(id) => Validation(id, None)
  }

  /** A token MakeJWT minted for `userID`, read back by a decoder that inverts
      the encoder, validates to `userID` under the same secret until its
      expiry, and is rejected as expired from then on. */
  lemma MintThenValidate(
    encode: Encoder, decode: Decoder, userID: Uuids.Uuid, tokenSecret: string,
    now: int, expiresIn: int, token: string, at: int)
    requires MakeJWT(encode, userID, tokenSecret, now, expiresIn) == Ok(token)
    requires decode(token) == Some(Jwt(HS256, MintedClaims(userID, now, expiresIn), tokenSecret))
    requires now <= at
    ensures ValidateJWT(decode, token, tokenSecret, at) ==
      if at < now + expiresIn / Second then Validation(userID, None)
      else Validation(Uuids.Nil, Some(Expired))
  {
  }

  /** The same token under any other secret is refused, whatever its claims. */
  lemma WrongSecretRejected(decode: Decoder, tokenString: string, tokenSecret: string, now: int)
    requires decode(tokenString).Some? && decode(tokenString).value.macKey != tokenSecret
    ensures ValidateJWT(decode, tokenString, tokenSecret, now).err.Some?
    ensures ValidateJWT(decode, tokenString, tokenSecret, now).userID == Uuids.Nil
  {
  }

  datatype PasswordError = PasswordTooShort | HashFailed

  /** HashPassword: an empty password is refused before bcrypt is called;
      otherwise the result is bcrypt's (`bcryptHash`, None when it fails). */
  function HashPassword(bcryptHash: string -> Option<string>, password: string)
    : (r: Result<string, PasswordError>)
    ensures password == "" ==> r == Err(PasswordTooShort)
    ensures r.Ok? ==> password != "" && bcryptHash(password) == Some(r.value)
    ensures password != "" && bcryptHash(password).Some? ==> r.Ok?
  {
    if Utf8Len(password) < 1 then Err(PasswordTooShort)
    else match bcryptHash(password)
      case Some(hash) => Ok(hash)
      case None => Err(HashFailed)
  }

  /** CheckPasswordHash: bcrypt's comparison of a password with a stored hash. */
  function CheckPasswordHash(bcryptMatches: (string, string) -> bool, password: string, hash: string): (ok: bool)
    ensures ok <==> bcryptMatches(hash, password)
  {
    bcryptMatches(hash, password)
  }

  /** The behaviour the password tests rely on: given a bcrypt whose hashes
      match their own password and no other, a password checks against the
      hash HashPassword made of it, and a different password does not. */
  lemma HashThenCheck(
    bcryptHash: string -> Option<string>, bcryptMatches: (string, string) -> bool,
    password: string, other: string)
    requires forall x | bcryptHash(x).Some? :: bcryptMatches(bcryptHash(x).value, x)
    requires forall x, y | x != y && bcryptHash(x).Some? :: !bcryptMatches(bcryptHash(x).value, y)
    requires HashPassword(bcryptHash, password).Ok?
    ensures CheckPasswordHash(bcryptMatches, password, HashPassword(bcryptHash, password).value)
    ensures other != password ==> !CheckPasswordHash(bcryptMatches, other, HashPassword(bcryptHash, password).value)
  {
  }
}
