/**
 * The `Signer` and its three flows. Each builds its OAuth parameters,
 * computes the base string from them while they have no `oauth_signature`,
 * signs it with the consumer secret and the flow's token secret, adds the
 * signature, and sets the Authorization header on the request. The encoder
 * `pe`, the MAC, the clock reading and the nonce are passed in.
 */
module Flows {
  import opened GoStrings
  import opened PercentEncoding
  import opened Normalization
  import opened Http
  import opened BaseString
  import opened Signing
  import opened Header
  import opened OAuthParams

  class Signer {
    const config: Config

    constructor(config: Config)
      ensures this.config == config
    {
      this.config := config;
    }

    /**
     * `SetRequestTokenAuthHeader`: adds `oauth_callback` and signs with an
     * empty token secret.
     */
    method SetRequestTokenAuthHeader(pe: GoString -> GoString, mac: (GoString, GoString) -> GoString,
                                     req: Request, timestamp: int, nonce: GoString)
      returns (ghost base: GoString, ghost signed: Params, ghost h: GoString)
      requires HasValues(req.query)
      modifies req
      ensures IsSignatureBase(pe, req, RequestTokenParams(config, timestamp, nonce), base)
      ensures AddsSignature(RequestTokenParams(config, timestamp, nonce),
                            Signature(mac, config.consumerSecret, "", base), signed)
      ensures IsAuthorizationHeader(pe, signed, h)
      ensures req.header == old(req.header)[AuthorizationName := [h]]
    {
      var oauthParams := BasicOAuthParams(config.consumerKey, timestamp, nonce);
      oauthParams := oauthParams[OAuthCallback := config.callbackURL];
      var signatureBase := SignatureBase(pe, req, oauthParams);
      var signature := Signature(mac, config.consumerSecret, "", signatureBase);
      ghost var unsigned := oauthParams;
      oauthParams := oauthParams[OAuthSignature := signature];
      SignatureAdded(unsigned, signature);
      h := SetAuthorizationHeader(pe, req, oauthParams);
      base, signed := signatureBase, oauthParams;
    }

    /**
     * `SetAccessTokenAuthHeader`: adds the request token and the verifier
     * and signs with the request token's secret.
     */
    method SetAccessTokenAuthHeader(pe: GoString -> GoString, mac: (GoString, GoString) -> GoString,
                                    req: Request, requestToken: Token, verifier: GoString,
                                    timestamp: int, nonce: GoString)
      returns (ghost base: GoString, ghost signed: Params, ghost h: GoString)
      requires HasValues(req.query)
      modifies req
      ensures IsSignatureBase(pe, req, AccessTokenParams(config, requestToken, verifier, timestamp, nonce), base)
      ensures AddsSignature(AccessTokenParams(config, requestToken, verifier, timestamp, nonce),
                            Signature(mac, config.consumerSecret, requestToken.tokenSecret, base), signed)
      ensures IsAuthorizationHeader(pe, signed, h)
      ensures req.header == old(req.header)[AuthorizationName := [h]]
    {
      var oauthParams := BasicOAuthParams(config.consumerKey, timestamp, nonce);
      oauthParams := oauthParams[OAuthToken := requestToken.token];
      oauthParams := oauthParams[OAuthVerifier := verifier];
      var signatureBase := SignatureBase(pe, req, oauthParams);
      var signature := Signature(mac, config.consumerSecret, requestToken.tokenSecret, signatureBase);
      ghost var unsigned := oauthParams;
      oauthParams := oauthParams[OAuthSignature := signature];
      SignatureAdded(unsigned, signature);
      h := SetAuthorizationHeader(pe, req, oauthParams);
      base, signed := signatureBase, oauthParams;
    }

    /**
     * `SetRequestAuthHeader`: adds the access token and signs with its
     * secret.
     */
    method SetRequestAuthHeader(pe: GoString -> GoString, mac: (GoString, GoString) -> GoString,
                                req: Request, accessToken: Token, timestamp: int, nonce: GoString)
      returns (ghost base: GoString, ghost signed: Params, ghost h: GoString)
      requires HasValues(req.query)
      modifies req
      ensures IsSignatureBase(pe, req, AuthenticatedParams(config, accessToken, timestamp, nonce), base)
      ensures AddsSignature(AuthenticatedParams(config, accessToken, timestamp, nonce),
                            Signature(mac, config.consumerSecret, accessToken.tokenSecret, base), signed)
      ensures IsAuthorizationHeader(pe, signed, h)
      ensures req.header == old(req.header)[AuthorizationName := [h]]
    {
      var oauthParams := BasicOAuthParams(config.consumerKey, timestamp, nonce);
      oauthParams := oauthParams[OAuthToken := accessToken.token];
      var signatureBase := SignatureBase(pe, req, oauthParams);
      var signature := Signature(mac, config.consumerSecret, accessToken.tokenSecret, signatureBase);
      ghost var unsigned := oauthParams;
      oauthParams := oauthParams[OAuthSignature := signature];
      SignatureAdded(unsigned, signature);
      h := SetAuthorizationHeader(pe, req, oauthParams);
      base, signed := signatureBase, oauthParams;
    }
  }

  /** Adding the signature to a set without one adds exactly it. */
  lemma SignatureAdded(unsigned: Params, signature: GoString)
    requires OAuthSignature !in unsigned
    ensures AddsSignature(unsigned, signature, unsigned[OAuthSignature := signature])
  {
  }

  /**
   * The request-token flow signs under the key `consumerSecret&`: the
   * separator is there although the token secret is empty.
   */
  lemma RequestTokenSignature(mac: (GoString, GoString) -> GoString, consumerSecret: GoString, base: GoString)
    ensures Signature(mac, consumerSecret, "", base) == mac(consumerSecret + "&", base)
  {
    SigningKeyEmptyToken(consumerSecret);
  }
}
