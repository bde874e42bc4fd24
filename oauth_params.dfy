/**
 * The OAuth protocol parameters (`basicOAuthParams` and the keys each flow
 * adds): the names and defaults of sign.go, the five common parameters, and
 * the parameter sets of the request-token (section 2.1 of RFC 5849),
 * access-token (section 2.3) and authenticated-request (section 3.1) flows,
 * before the signature is added.
 */
module OAuthParams {
  import opened GoStrings
  import opened Decimal
  import opened Normalization

  const OAuthConsumerKey: GoString := "oauth_consumer_key"
  const OAuthNonce: GoString := "oauth_nonce"
  const OAuthSignature: GoString := "oauth_signature"
  const OAuthSignatureMethod: GoString := "oauth_signature_method"
  const OAuthTimestamp: GoString := "oauth_timestamp"
  const OAuthToken: GoString := "oauth_token"
  const OAuthVersion: GoString := "oauth_version"
  const OAuthCallback: GoString := "oauth_callback"
  const OAuthVerifier: GoString := "oauth_verifier"
  const DefaultSignatureMethod: GoString := "HMAC-SHA1"
  const DefaultVersion: GoString := "1.0"

  /** The consumer's credentials and callback, as the signer is configured. */
  datatype Config = Config(consumerKey: GoString, consumerSecret: GoString, callbackURL: GoString)

  /** A token with its secret: a request token or an access token. */
  datatype Token = Token(token: GoString, tokenSecret: GoString)

  /** The keys of `basicOAuthParams`. */
  const BasicKeys: set<GoString> :=
    {OAuthConsumerKey, OAuthSignatureMethod, OAuthTimestamp, OAuthNonce, OAuthVersion}

  /** The parameter names are pairwise different. */
  lemma NamesDistinct()
    ensures OAuthNonce != OAuthToken && OAuthSignature != OAuthTimestamp
    ensures OAuthCallback != OAuthVerifier
    ensures |OAuthConsumerKey| == 18 && |OAuthNonce| == 11 && |OAuthSignature| == 15
    ensures |OAuthSignatureMethod| == 22 && |OAuthTimestamp| == 15 && |OAuthToken| == 11
    ensures |OAuthVersion| == 13 && |OAuthCallback| == 14 && |OAuthVerifier| == 14
  {
    assert OAuthNonce[6] != OAuthToken[6];
    assert OAuthSignature[6] != OAuthTimestamp[6];
    assert OAuthCallback[6] != OAuthVerifier[6];
  }

  /**
   * `basicOAuthParams`, with the clock reading `timestamp` (seconds since
   * the epoch) and the random `nonce` passed in: exactly five parameters,
   * the consumer key, `HMAC-SHA1`, the decimal timestamp, the nonce and
   * `1.0`, and no signature.
   */
  function BasicOAuthParams(consumerKey: GoString, timestamp: int, nonce: GoString): (p: Params)
    ensures p.Keys == BasicKeys && |p| == 5
    ensures OAuthSignature !in p
    ensures p[OAuthConsumerKey] == consumerKey
    ensures p[OAuthSignatureMethod] == "HMAC-SHA1"
    ensures p[OAuthTimestamp] == FormatInt(timestamp)
    ensures p[OAuthNonce] == nonce
    ensures p[OAuthVersion] == "1.0"
  {
    NamesDistinct();
    map[
      OAuthConsumerKey := consumerKey,
      OAuthSignatureMethod := DefaultSignatureMethod,
      OAuthTimestamp := FormatInt(timestamp),
      OAuthNonce := nonce,
      OAuthVersion := DefaultVersion
    ]
  }

  /** `p` is `basic` with exactly the entries of `added`, none of which it had. */
  ghost predicate AddsExactly(basic: Params, added: Params, p: Params) {
    && added.Keys !! basic.Keys
    && p.Keys == basic.Keys + added.Keys
    && (forall k :: k in basic ==> p[k] == basic[k])
    && (forall k :: k in added ==> p[k] == added[k])
  }

  /** The request-token flow adds exactly `oauth_callback`, and no signature. */
  function RequestTokenParams(config: Config, timestamp: int, nonce: GoString): (p: Params)
    ensures OAuthSignature !in p
    ensures AddsExactly(BasicOAuthParams(config.consumerKey, timestamp, nonce),
                        map[OAuthCallback := config.callbackURL], p)
  {
    NamesDistinct();
    BasicOAuthParams(config.consumerKey, timestamp, nonce)[OAuthCallback := config.callbackURL]
  }

  /** The access-token flow adds exactly `oauth_token` and `oauth_verifier`, and no signature. */
  function AccessTokenParams(config: Config, requestToken: Token, verifier: GoString,
                             timestamp: int, nonce: GoString): (p: Params)
    ensures OAuthSignature !in p
    ensures AddsExactly(BasicOAuthParams(config.consumerKey, timestamp, nonce),
                        map[OAuthToken := requestToken.token, OAuthVerifier := verifier], p)
  {
    NamesDistinct();
    var basic := BasicOAuthParams(config.consumerKey, timestamp, nonce);
    assert OAuthToken !in BasicKeys && OAuthVerifier !in BasicKeys;
    basic[OAuthToken := requestToken.token][OAuthVerifier := verifier]
  }

  /** The authenticated-request flow adds exactly `oauth_token`, and no signature. */
  function AuthenticatedParams(config: Config, accessToken: Token, timestamp: int, nonce: GoString): (p: Params)
    ensures OAuthSignature !in p
    ensures AddsExactly(BasicOAuthParams(config.consumerKey, timestamp, nonce),
                        map[OAuthToken := accessToken.token], p)
  {
    NamesDistinct();
    BasicOAuthParams(config.consumerKey, timestamp, nonce)[OAuthToken := accessToken.token]
  }

  /**
   * `signed` is `unsigned` with `oauth_signature` added: the signature was
   * not there before, and every other entry is unchanged.
   */
  ghost predicate AddsSignature(unsigned: Params, signature: GoString, signed: Params) {
    AddsExactly(unsigned, map[OAuthSignature := signature], signed)
  }
}
