# Chirpy core, modelled in Dafny

Chirpy is a small web back end for short posts ("chirps"). This project
models its decision logic and proves properties of it. The HTTP layer and
the SQL store are replaced by values, maps and outcome datatypes. The
modelled logic is:

- **Authorization headers** (`Authentication`, `PolkaApi`). Two extractors
  read a token: one after the case-sensitive scheme `Bearer `, one after
  `ApiKey `.
- **Session tokens** (`Authentication`). These cover the claims `MakeJWT`
  signs and the ordered rejection chain of `ValidateJWT`.
  - The JWT library is seen through an encoder and a decoder, passed in as
    function parameters.
  - A decoded token carries the key its MAC was made with, so a signature
    checks under exactly that key (a perfect MAC).
- **Password guard** (`Authentication`). An empty password is refused before
  bcrypt is called.
- **Chirp cleaning** (`Chirp`). A 140-byte limit, then the profanity filter.
  The filter splits on `" "`, masks every field whose lower-case form is a
  listed word, and joins again.
- **The chirp handlers**.
  - `HandlerChirp` is the early unauthenticated create handler.
  - `HandlerChirps` covers listing with author filter and sort, the
    authenticated create handler, and delete with its fixed order of checks.
- **Login** (`HandlerLogin`). Credential checks, then the token-lifetime
  default and cap.
- **Refresh tokens** (`HandlerRefresh`). A class holding the refresh-token
  table; refresh reads it and revoke updates it.
- **Go library behaviour the core relies on**.
  - `Strings`: `strings.TrimSpace` with the exact `unicode.IsSpace` set,
    `strings.Split`/`Join` on `" "`, and `len` as a UTF-8 byte count.
  - `Uuids`: `uuid.UUID.String` and `uuid.Parse`.

Time is an integer clock passed in by the caller.
- Token times are whole seconds, because JWT NumericDate truncates to the
  second.
- A `time.Duration` is an integer count of nanoseconds.
- Chirp timestamps are integers compared as instants.

The source files are snapshots of different revisions.
- `handler_chirp.go` repeats `chirp.go`'s validator and filter word for word.
  They are modelled once, in `Chirp`.
- `handler_refresh.go` calls `MakeJWT` with two arguments, while
  `internal/auth/authentication.go` takes three. The refresh path's token
  lifetime is therefore a parameter of `Refresh`.
- In this revision login mints only a session token. It creates no refresh
  token, and the model follows the code.
- `UpdateRefreshToken`'s SQL is not part of this model. `Revoke` takes it to
  set `revoked_at` and `updated_at` to now on the matching row. It also takes
  it to succeed when no row matches, as an UPDATE does.

## Model

| member | source | states |
|---|---|---|
| Strings.TrimSpace | internal/auth/authentication.go:27 | the result has no leading or trailing white space, it is empty exactly when the input is all white space, and the input is the result with white space on either side |
| Strings.TrimSpacePadded | internal/auth/authentication.go:27 | trimming white space + t + white space gives back t when t is already trimmed |
| Strings.PaddedTrimmedUnique | internal/auth/authentication.go:27 | the trimmed core of a padded string is unique: it is what TrimSpace returns |
| Strings.Split | chirp.go:35 | strings.Split on " " gives at least one field, and no field contains " " |
| Strings.JoinSplit | chirp.go:35-41 | joining the fields of a split with " " gives the original string back |
| Strings.SplitJoin | chirp.go:35-41 | splitting the " "-join of a non-empty list of space-free fields gives the list back |
| Strings.SplitWordPrefix | chirp.go:35 | a space-free prefix only extends the first field of a split |
| Strings.Join | chirp.go:41 | strings.Join on " ": a non-empty list's join starts with its first field, followed by " " when there is a second |
| Strings.Utf8Len | chirp.go:26 | Go's `len` on a string counts UTF-8 bytes: between one and four per rune |
| Strings.Utf8LenRune | chirp.go:26 | one rune takes RuneLen bytes, one to four by code point range (é is 2, € is 3, U+1F426 is 4), which with Utf8LenAppend fixes the byte length of every string |
| Strings.ToLower | chirp.go:50 | strings.ToLower keeps the number of runes (not always the number of bytes: U+212A has three, 'k' one); each ASCII capital becomes its lower-case letter (code point + 32), U+212A becomes 'k' and U+0130 becomes 'i'; every other ASCII rune is kept and no ASCII capital remains |
| Strings.Utf8LenAppend | chirp.go:26 | the byte length of a concatenation is the sum of the byte lengths |
| Strings.Utf8LenBounds | chirp.go:26 | a string has between one and four bytes per rune, and exactly one per rune when it is ASCII |
| Uuids.HexValue | internal/auth/authentication.go:70 | a hex digit in either case has a value below 16, and every other character has none; a decimal digit has its decimal value, and a letter digit has the same value in either case ('A' and 'a' are both 10) |
| Uuids.ParseIgnoresCase | handler_chirps.go:19 | uuid.Parse reads any casing of its input as the lower-case form, so an upper-case author_id or chirp ID parses like its lower-case form |
| Uuids.ParseAnyCase | handler_chirps.go:140 | every casing of a UUID's text form, upper case included, parses to that UUID |
| Uuids.ToString | internal/auth/authentication.go:40 | a UUID's text form is 36 characters long |
| Uuids.Parse | internal/auth/authentication.go:70 | whatever uuid.Parse accepts prints back as the input in lower case; with ParseAnyCase, Parse(s) is Some(u) exactly when the lower-case form of s is u's text form, so everything else is rejected |
| Uuids.ParseHexOfHex | internal/auth/authentication.go:70 | parsing the hex form of any bytes gives the bytes back |
| Uuids.ParseToString | internal/auth/authentication.go:40 | uuid.Parse of a UUID's String() is that UUID, so a minted subject parses back to the user |
| Authentication.CredentialAfter | internal/auth/authentication.go:18-31 | the three steps shared by both extractors, for any scheme prefix: the same three error conditions and the same success result as GetBearerToken |
| Authentication.GetBearerToken | internal/auth/authentication.go:17-32 | missing header iff the value is empty; malformed iff it does not start with exactly "Bearer "; missing token iff the rest is all white space; otherwise the result is the non-empty trimmed rest |
| Authentication.BearerOfPadded | internal/auth/authentication.go:23-31 | "Bearer " + white space + t + white space yields exactly t for a non-empty trimmed t |
| Authentication.BearerRoundTrip | internal/auth/authentication.go:23-31 | GetBearerToken("Bearer " + t) == t for every non-empty trimmed t |
| Authentication.BearerIdempotent | internal/auth/authentication.go:23-31 | re-wrapping an extracted token and extracting again gives the same result |
| Authentication.BearerRejectsMalformed | internal/auth/authentication.go:23-26 | "Bearer", "BearerXYZ" and "bearer x" are malformed headers |
| Authentication.BearerRejectsBlank | internal/auth/authentication.go:27-30 | a scheme followed only by spaces has no token |
| Authentication.MintedClaims | internal/auth/authentication.go:35-41 | issuer "chirpy", the subject exactly the user ID's lower-case text form (userID.String()), which parses back to the ID, issued now, expiring expiresIn after that (floored to the second), no not-before |
| Authentication.MakeJWT | internal/auth/authentication.go:34-49 | exactly the minted claims are signed with HS256 under the secret; the signed string on success, and the signing library's error text on failure |
| Authentication.ValidateJWT | internal/auth/authentication.go:51-71 | every failure returns uuid.Nil; a non-HMAC method is refused before the key is used; success holds exactly for an HMAC token (HS256, HS384 or HS512) signed with the secret, live at now, whose subject parses, and then the returned ID is that subject's UUID |
| Authentication.MintThenValidate | internal/auth/authentication.go:34-71 | a token MakeJWT minted validates to the same user under the same secret strictly before its expiry, and is refused as expired from then on |
| Authentication.WrongSecretRejected | internal/auth/authentication.go:53-61 | a token signed under another key is refused with uuid.Nil |
| Authentication.HashPassword | internal/auth/authentication.go:73-82 | an empty password is an error and yields no hash; otherwise the result is bcrypt's |
| Authentication.CheckPasswordHash | internal/auth/authentication.go:84-89 | true exactly when bcrypt's comparison of the stored hash with the password succeeds |
| Authentication.HashThenCheck | internal/auth/authentication_test.go:5-27 | given a bcrypt whose hashes match their own password and no other, a password checks against the hash HashPassword made of it, and a different password does not |
| PolkaApi.GetAPIKey | internal/auth/polka_api.go:9-24 | the same three errors and the same success result as GetBearerToken, for the scheme "ApiKey " |
| PolkaApi.ApiKeyRoundTrip | internal/auth/polka_api.go:15-23 | GetAPIKey("ApiKey " + k) == k for every non-empty trimmed k |
| PolkaApi.ApiKeyAgreesWithBearer | internal/auth/polka_api.go:9-24 | on the same remainder, GetAPIKey and GetBearerToken give the same result |
| PolkaApi.ApiKeyRejectsBearer | internal/auth/polka_api.go:15-18 | every "Bearer ..." header is a malformed API-key header |
| Chirp.Filter | chirp.go:34-42 | the in-place loop over the fields computes Filtered: split, mask each profane field, join |
| Chirp.MaskIsClean | chirp.go:37 | the mask "****" is not itself profane |
| Chirp.CensorChangesExactlyProfane | chirp.go:36-40 | a field changes iff it is profane, and then it becomes "****" |
| Chirp.ProfaneExamples | chirp.go:44-51 | "FORNAX", "Kerfuffle" and "sharbert" are profane; "Fornax!" and "fornaxes" are not, because only whole fields match |
| Chirp.Profane | chirp.go:44-51 | a field is profane when its lower-case form is a listed word; a profane field has six to nine runes and no space |
| Chirp.FilteredFields | chirp.go:34-42 | filtering keeps the number and order of fields and changes each only by censoring it |
| Chirp.JoinNoLonger | chirp.go:41 | fields that are each no longer in bytes join to a string that is no longer in bytes |
| Chirp.FilteredNoLonger | chirp.go:34-42 | filtering never lengthens a chirp, counted in bytes |
| Chirp.FilteredIdempotent | chirp.go:34-42 | filtering twice is filtering once |
| Chirp.FilteredClean | chirp.go:34-42 | a chirp without profane fields comes back unchanged |
| Chirp.CleanChirp | chirp.go:25-32 | an error iff the chirp has more than 140 bytes (exactly 140 is accepted); otherwise the filtered chirp, which also fits in 140 bytes |
| Chirp.ValidateAndCleanChirp | handler_chirp.go:64-71 | the length check and then the filter compute CleanChirp |
| HandlerChirp.HandleChirpAsWritten | handler_chirp.go:28-62 | as written: decode error 500 and nothing stored; every decoded request inserts a row for the requested author and writes it last; the row's body is the filtered chirp when it fits, and the 400 reply comes first exactly when it does not |
| HandlerChirp.AsWrittenStoresEmptyChirp | handler_chirp.go:39-47 | as written, an over-long chirp gets the 400 reply, and then a row with an empty body is inserted and its JSON written after the error |
| HandlerChirp.HandleChirp | handler_chirp.go:28-62 | with the return in place: one reply; a decode error is 500 with the decoder's text and stores nothing; a row is stored iff the body decodes and fits in 140 bytes; the stored body is the filtered chirp; the author is taken from the request body |
| HandlerChirp.Chirp141 | handler_chirp.go:39-47 | a 141-byte chirp is stored with an empty body as written, and not stored when corrected |
| HandlerChirps.SortByCreatedAt | handler_chirps.go:51-60 | the array ends up ordered by creation time, ascending or descending, and is a permutation of its old contents |
| HandlerChirps.GetChirps | handler_chirps.go:14-62 | 400 iff author_id is present and not a UUID, before any read; otherwise 200 with the selected rows mapped field by field, as a permutation; sorted non-decreasing for asc, non-increasing for desc, store order for any other value |
| HandlerChirps.Caller | handler_chirps.go:105-117 | a caller is known exactly when the bearer header yields a token that validates, and it is that token's user |
| HandlerChirps.HandleCreateChirp | handler_chirps.go:88-137 | decode error 500; an over-long body 400 even without a token; no valid token 401 "permission denied"; a decoded body of at most 140 bytes from a known caller is always created, with the filtered body and the token's user as author |
| HandlerChirps.HandleDeleteChirp | handler_chirps.go:139-181 | each rejection iff every earlier check passed and its own fails, in the order 400, 401, 404, 403; the chirp is deleted exactly when all four checks pass, that is, when it exists and is the caller's own |
| HandlerLogin.TokenLifetime | handler_login.go:44-52 | 3600 when absent; a supplied value above 3600 becomes 3600; a value at or below 3600 (zero and negative included) is kept |
| HandlerLogin.LifetimeDurationAsWritten | handler_login.go:54 | `time.Duration(expiresIn) * time.Second` as written: an int64 congruent to the exact product modulo 2^64, equal to it when it fits |
| HandlerLogin.Wrap64 | handler_login.go:54 | Go int64 arithmetic: the unique int64 congruent to the mathematical result modulo 2^64 |
| HandlerLogin.LifetimeDuration | handler_login.go:54 | the lifetime as a Duration: the exact product when it fits in int64, MaxInt64 when the product is above the int64 range and MinInt64 when below |
| HandlerLogin.AsWrittenNegativeLifetimeWraps | handler_login.go:44-54 | as written, a request for -9223372037 seconds keeps that value and yields a Duration of about 292 years |
| HandlerLogin.LifetimeNeverAboveCap | handler_login.go:44-54 | with the clamped conversion a login token never lives more than 3600 s, and it lives exactly the settled lifetime when the product fits |
| HandlerLogin.HandleLogin | handler_login.go:16-74 | decode error 500; unknown email and wrong password give the same 401 "incorrect email or password"; a token is minted only after the password matches, for that user's ID; a signing error is 500 with the signing error's text. The lifetime is converted with the corrected LifetimeDuration, not the wrapping product of line 54 |
| HandlerRefresh.Usable | handler_refresh.go:26 | a revoked row is never usable; an unrevoked row is usable unless its expiry is before now |
| HandlerRefresh.Revoked | handler_refresh.go:54 | the revoked row has revoked_at and updated_at set to now, and every other field unchanged |
| HandlerRefresh.RevokedNeverUsable | handler_refresh.go:26 | a revoked row is never usable again |
| HandlerRefresh.RefreshTokenStore.Refresh | handler_refresh.go:11-44 | success iff a bearer token names a row that has not expired (expiry equal to now still counts) and is not revoked, and minting succeeds; the token is minted for the row's user; every failure is 401 with an empty message; the table is not written |
| HandlerRefresh.RefreshTokenStore.Revoke | handler_refresh.go:46-61 | 401 with the table untouched for a bad header; 500 iff the update fails, the table unchanged; otherwise 204 with the named row, if any, revoked and nothing else changed |
| HandlerRefresh.RevokeThenRefresh | handler_refresh.go:26-60 | after a revoke answered 204, a refresh with the same header fails, and other tokens' rows are unchanged |

## Left out

- bcrypt is not modelled. `HashPassword` and `CheckPasswordHash` take bcrypt's hash and compare as function parameters. The two bcrypt properties the password tests exercise (a hash matches its own password, and not a different one) are requires of `HashThenCheck`, not facts of the model. Real bcrypt only approximates the second: it reads at most 72 bytes of a password, and hash collisions are not ruled out.
- JWT encoding, HMAC computation and `jwt.ParseWithClaims` parsing are not modelled. They are the encoder and decoder parameters, and the MAC is taken as perfect.
- Authentication.ValidateJWT: the library checks other registered claims (issued-at in the future is not checked by default; audience and issuer are not requested). Only exp, nbf and the subject are modelled. When the subject is not a UUID, the source returns whatever partly filled value uuid.Parse gives back with its error; the model returns uuid.Nil there, as on every other failure.
- The wall clock (`time.Now`) is replaced by an integer parameter. Sub-second precision of the refresh-token comparison and of chirp timestamps is not modelled.
- Uuids.Parse accepts only the 36-character canonical form (hex in either case). The 32-character, braced and `urn:uuid:` forms that uuid.Parse also accepts are not modelled.
- Strings.LowerChar maps only ASCII capitals, U+212A (Kelvin sign) and U+0130 to their lower-case forms. Other runes keep their case, which cannot change membership in the all-ASCII profane-word set. Invalid UTF-8 input is not modelled, because strings here are sequences of Unicode scalar values.
- HandlerChirps.GetChirps: the 400 message (the uuid.Parse error text) is not modelled. Store read errors (500) are not modelled. A nil result slice, encoded as JSON `null` rather than `[]`, is not distinguished.
- HandlerChirps.SortByCreatedAt: sort.Slice is not stable, and the model promises no order among chirps created at the same instant. The sort here is an insertion sort with the same ordering guarantee.
- HandlerChirps.HandleDeleteChirp: a failure of DeleteChirpByID after the checks (404 "chirp does not exist") is not modelled. The delete outcome is the request to delete.
- HandlerLogin.HandleLogin: mints with the corrected conversion LifetimeDuration. As written, handler_login.go:54 wraps the product in int64, so a request for -9223372037 seconds gets a token of about 292 years (see Findings); the model's token for that request is already expired.
- HandlerChirps.HandleCreateChirp: an insert error of CreateChirp (500) is not modelled.
- HandlerChirp.HandleChirp: an insert error of CreateChirp (500) is not modelled, nor in HandleChirpAsWritten.
- HandlerRefresh.RefreshTokenStore.Revoke: only a store error of the update itself is modelled, as the `updateFails` flag.
- handlerGetChirpByID, the user-creation handler, metrics, readiness, JSON response writing and `main.go` routing are not modelled. They are I/O or plumbing with no rule beyond the modelled helpers.
- Logging is not modelled.

## Findings

| source | as written | input that shows it | evidently intended | confidence | as-written member | corrected member |
|---|---|---|---|---|---|---|
| handler_chirp.go:39-47 | after writing the 400 reply for a chirp over 140 bytes, the handler does not return: it inserts a row with an empty body and writes that row's JSON after the error (the status line stays 400, since the second WriteHeader is ignored) | a body of 141 "a" characters | reject the chirp with 400 and store nothing, as handlerCreateChirp does | high (not executed) | HandlerChirp.AsWrittenStoresEmptyChirp | HandlerChirp.HandleChirp |
| handler_login.go:46-54 | a negative expires_in_seconds passes the cap, and `time.Duration(expiresIn)*time.Second` wraps in int64 | expires_in_seconds = -9223372037 gives a Duration of 9223372036709551616 ns, a token valid for about 292 years | a lifetime of at most 3600 s for every request | high (not executed) | HandlerLogin.AsWrittenNegativeLifetimeWraps | HandlerLogin.LifetimeDuration |
