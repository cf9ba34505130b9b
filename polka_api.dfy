/** The payment-webhook key extractor: the bearer extractor's steps with the
    "ApiKey " scheme. */
module PolkaApi {
  import opened Wrappers
  import opened Strings
  import opened Authentication

  const ApiKeyPrefix: string := "ApiKey "

  /** GetAPIKey. On success the key is the non-empty remainder after
      "ApiKey ", with only spaces cut from around it. */
  function GetAPIKey(authValue: string): (r: Result<string, HeaderError>)
    ensures r == Err(MissingHeader) <==> authValue == ""
    ensures r == Err(MalformedHeader) <==> authValue != "" && !(ApiKeyPrefix <= authValue)
    ensures r == Err(MissingTokenString) <==>
      authValue != "" && ApiKeyPrefix <= authValue && AllSpace(authValue[|ApiKeyPrefix|..])
    ensures r.Ok? ==>
      ApiKeyPrefix <= authValue && r.value != "" && Trimmed(r.value)
      && Pads(authValue[|ApiKeyPrefix|..], r.value)
  {
    CredentialAfter(ApiKeyPrefix, authValue)
  }

  /** GetAPIKey("ApiKey " + k) == k for every non-empty trimmed key. */
  lemma ApiKeyRoundTrip(key: string)
    requires key != "" && Trimmed(key)
    ensures GetAPIKey(ApiKeyPrefix + key) == Ok(key)
  {
    CredentialOfPadded(ApiKeyPrefix, "", key, "");
    assert ApiKeyPrefix + "" + key + "" == ApiKeyPrefix + key;
  }

  /** Behind their own schemes the two extractors agree on every remainder. */
  lemma ApiKeyAgreesWithBearer(rest: string)
    ensures GetAPIKey(ApiKeyPrefix + rest) == GetBearerToken(BearerPrefix + rest)
  {
  }

  /** A bearer header is never taken for an API key. */
  lemma ApiKeyRejectsBearer(authValue: string)
    requires BearerPrefix <= authValue
    ensures GetAPIKey(authValue) == Err(MalformedHeader)
  {
    assert authValue[0] == 'B';
  }
}
