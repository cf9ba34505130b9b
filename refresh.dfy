/** The refresh-token endpoints over the refresh-token table: refresh mints a
    new session token from a usable refresh token, revoke marks one revoked.
    The table maps token strings to their rows; times are whole seconds. */
module HandlerRefresh {
  import opened Wrappers
  import opened Uuids
  import opened Authentication
  import opened Http

  /** database.RefreshToken: a row of the table; `revokedAt` is None while
      the token has not been revoked. */
  datatype RefreshToken = RefreshToken(
    token: string,
    createdAt: int,
    updatedAt: int,
    userID: Uuid,
    expiresAt: int,
    revokedAt: Option<int>)

  /** A refresh token is accepted up to and including its expiry instant, and
      only while it is not revoked. */
  predicate Usable(t: RefreshToken, now: int): (u: bool)
    ensures u ==> t.revokedAt.None?
    ensures t.revokedAt.None? ==> (u <==> !(t.expiresAt < now))
  {
    now <= t.expiresAt && t.revokedAt.None?
  }

  /** The row UpdateRefreshToken leaves: revoked, and updated, at `at`. */
  function Revoked(t: RefreshToken, at: int): (r: RefreshToken)
    ensures r.revokedAt == Some(at) && r.updatedAt == at
    ensures r.token == t.token && r.createdAt == t.createdAt
    ensures r.userID == t.userID && r.expiresAt == t.expiresAt
  {
    t.(revokedAt := Some(at), updatedAt := at)
  }

  /** Revocation is final: a revoked row is not usable at any time. */
  lemma RevokedNeverUsable(t: RefreshToken, at: int, later: int)
    ensures !Usable(Revoked(t, at), later)
  {
  }

  datatype RefreshReply = RefreshFailed(status: nat, message: string) | Refreshed(token: string)

  datatype RevokeReply = RevokeReply(status: nat, message: string)

  const RevokeFailedMessage: string := "failed to revoke refresh token"

  /** The refresh-token table. */
  class RefreshTokenStore {
    var tokens: map<string, RefreshToken>

    constructor(tokens: map<string, RefreshToken>)
      ensures this.tokens == tokens
    {
      this.tokens := tokens;
    }

    /** handlerRefresh. Every failure, a signing error included, is answered
        401 with an empty message. A success needs a bearer token that names
        a usable row, and mints a session token for the row's user, valid
        for `expiresIn` nanoseconds. The table is only read. */
    method Refresh(encode: Encoder, tokenSecret: string, expiresIn: int, now: int, authValue: string)
      returns (reply: RefreshReply)
      ensures reply.RefreshFailed? ==> reply == RefreshFailed(StatusUnauthorized, "")
      ensures reply.Refreshed? <==>
        && GetBearerToken(authValue).Ok?
        && GetBearerToken(authValue).value in tokens
        && var row := tokens[GetBearerToken(authValue).value];
        && Usable(row, now)
        && MakeJWT(encode, row.userID, tokenSecret, now, expiresIn).Ok?
      ensures reply.Refreshed? ==>
        MakeJWT(encode, tokens[GetBearerToken(authValue).value].userID, tokenSecret, now, expiresIn)
        == Ok(reply.token)
    {
      var clientRefreshToken := GetBearerToken(authValue);
      if clientRefreshToken.Err? {
        return RefreshFailed(StatusUnauthorized, "");
      }
      if clientRefreshToken.value !in tokens {
        return RefreshFailed(StatusUnauthorized, "");
      }
      var row := tokens[clientRefreshToken.value];
      if row.expiresAt < now || row.revokedAt.Some? {
        return RefreshFailed(StatusUnauthorized, "");
      }
      var token := MakeJWT(encode, row.userID, tokenSecret, now, expiresIn);
      if token.Err? {
        return RefreshFailed(StatusUnauthorized, "");
      }
      return Refreshed(token.value);
    }

    /** handlerRevoke. A missing or malformed bearer header is answered 401
        and the table is not touched. Otherwise the update runs: when the
        store reports an error (`updateFails`) the answer is 500 and nothing
        changes; else the answer is 204, and the named row, if there is one,
        is revoked at `now`. Revoking an unknown token is not an error. */
    method Revoke(now: int, authValue: string, updateFails: bool) returns (reply: RevokeReply)
      modifies this
      ensures GetBearerToken(authValue).Err? ==>
        reply == RevokeReply(StatusUnauthorized, "") && tokens == old(tokens)
      ensures GetBearerToken(authValue).Ok? && updateFails ==>
        reply == RevokeReply(StatusInternalServerError, RevokeFailedMessage) && tokens == old(tokens)
      ensures GetBearerToken(authValue).Ok? && !updateFails ==>
        && reply == RevokeReply(StatusNoContent, "")
        && var t := GetBearerToken(authValue).value;
        && tokens == if t in old(tokens) then old(tokens)[t := Revoked(old(tokens)[t], now)] else old(tokens)
    {
      var clientRefreshToken := GetBearerToken(authValue);
      if clientRefreshToken.Err? {
        return RevokeReply(StatusUnauthorized, "");
      }
      if updateFails {
        return RevokeReply(StatusInternalServerError, RevokeFailedMessage);
      }
      var t := clientRefreshToken.value;
      if t in tokens {
        tokens := tokens[t := Revoked(tokens[t], now)];
      }
      return RevokeReply(StatusNoContent, "");
    }
  }

  /** A revoke answered 204, then a refresh with the same header, at any
      time: the refresh fails, and the rows of other tokens are as they were. */
  method RevokeThenRefresh(
    store: RefreshTokenStore, encode: Encoder, tokenSecret: string, expiresIn: int,
    revokeAt: int, refreshAt: int, authValue: string)
    returns (revoked: RevokeReply, refreshed: RefreshReply)
    modifies store
    ensures revoked.status == StatusNoContent ==> refreshed == RefreshFailed(StatusUnauthorized, "")
    ensures forall t | t in old(store.tokens) && (GetBearerToken(authValue).Err? || t != GetBearerToken(authValue).value) ::
      t in store.tokens && store.tokens[t] == old(store.tokens)[t]
  {
    revoked := store.Revoke(revokeAt, authValue, false);
    if GetBearerToken(authValue).Ok? && GetBearerToken(authValue).value in store.tokens {
      RevokedNeverUsable(old(store.tokens)[GetBearerToken(authValue).value], revokeAt, refreshAt);
    }
    refreshed := store.Refresh(encode, tokenSecret, expiresIn, refreshAt, authValue);
  }
}
