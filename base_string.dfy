/**
 * The signature base string (`signatureBase`, section 3.4.1 of RFC 5849):
 * the upper-cased method, the percent-encoded URL up to its first `?`, and
 * the percent-encoded parameter string of the query parameters merged with
 * the OAuth parameters, joined by `&`.
 */
module BaseString {
  import opened GoStrings
  import opened PercentEncoding
  import opened Normalization
  import opened Http

  /**
   * `params` is the merge of the query and the OAuth parameters: every key of
   * either is present, an OAuth parameter overrides a query parameter of the
   * same name, and a query key keeps only its first value.
   */
  ghost predicate IsMerge(query: Query, oauth: Params, params: Params) {
    && params.Keys == query.Keys + oauth.Keys
    && (forall k :: k in oauth ==> params[k] == oauth[k])
    && (forall k :: k in query && k !in oauth ==> |query[k]| > 0 && params[k] == query[k][0])
  }

  /** The merge is a function of its two sources. */
  lemma MergeUnique(query: Query, oauth: Params, p1: Params, p2: Params)
    requires IsMerge(query, oauth, p1) && IsMerge(query, oauth, p2)
    ensures p1 == p2
  {
    forall k | k in p1
      ensures p1[k] == p2[k]
    {
      if k !in oauth {
        assert k in query;
      }
    }
  }

  /** The two loops of `signatureBase` that fill `params`: query values first, then OAuth. */
  method MergeParams(query: Query, oauth: Params) returns (params: Params)
    requires HasValues(query)
    ensures IsMerge(query, oauth, params)
  {
    params := map[];
    var rest := query.Keys;
    while rest != {}
      invariant rest <= query.Keys
      invariant params.Keys == query.Keys - rest
      invariant forall k :: k in params ==> params[k] == query[k][0]
      decreases rest
    {
      var k :| k in rest;
      params := params[k := query[k][0]];
      rest := rest - {k};
    }
    rest := oauth.Keys;
    while rest != {}
      invariant rest <= oauth.Keys
      invariant params.Keys == query.Keys + (oauth.Keys - rest)
      invariant forall k :: k in oauth && k !in rest ==> params[k] == oauth[k]
      invariant forall k :: k in query && (k !in oauth || k in rest) ==> params[k] == query[k][0]
      decreases rest
    {
      var k :| k in rest;
      params := params[k := oauth[k]];
      rest := rest - {k};
    }
  }

  /** The base string URI: `url` up to, not including, its first `?`. */
  function BaseUri(url: GoString): (r: GoString)
    ensures r <= url
    ensures '?' !in r
    ensures |r| < |url| ==> url[|r|] == '?'
  {
    Split(url, '?')[0]
  }

  /** A URL's query, and everything after its first `?`, is cut off. */
  lemma BaseUriDropsQuery(uri: GoString, query: GoString)
    requires '?' !in uri
    ensures BaseUri(uri + "?" + query) == uri
  {
    SplitAfter(uri, '?', query);
  }

  /** The base string assembled from its three parts. */
  function BaseStringOf(httpMethod: GoString, uri: GoString, paramString: GoString): GoString {
    httpMethod + "&" + uri + "&" + paramString
  }

  /**
   * `base` is the signature base string of `req` with the OAuth parameters
   * `oauth`, for one of the parameter strings the encoding loop can produce.
   */
  ghost predicate IsSignatureBase(pe: GoString -> GoString, req: Request, oauth: Params, base: GoString) {
    exists params, e :: IsMerge(req.query, oauth, params) && IsEncoding(pe, params, e)
      && base == BaseStringOf(ToUpper(req.httpMethod), pe(BaseUri(req.url)), pe(ParamString(e)))
  }

  /** `signatureBase`; it leaves the request and `oauth` as they were. */
  method SignatureBase(pe: GoString -> GoString, req: Request, oauth: Params) returns (base: GoString)
    requires HasValues(req.query)
    ensures IsSignatureBase(pe, req, oauth, base)
  {
    var upper := ToUpper(req.httpMethod);
    var baseUrl := Split(req.url, '?')[0];
    var params := MergeParams(req.query, oauth);
    ghost var e;
    var parameterString;
    parameterString, e := EncodeParams(pe, params);
    var baseParts := [upper, pe(baseUrl), pe(parameterString)];
    base := Join(baseParts, "&");
    JoinThree(upper, pe(baseUrl), pe(parameterString), "&");
    assert base == BaseStringOf(upper, pe(baseUrl), pe(parameterString));
  }

  /**
   * With an injective encoder the base string does not depend on the order
   * in which Go visits the maps.
   */
  lemma SignatureBaseUnique(pe: GoString -> GoString, req: Request, oauth: Params, b1: GoString, b2: GoString)
    requires Injective(pe)
    requires IsSignatureBase(pe, req, oauth, b1) && IsSignatureBase(pe, req, oauth, b2)
    ensures b1 == b2
  {
    var p1, e1 :| IsMerge(req.query, oauth, p1) && IsEncoding(pe, p1, e1)
      && b1 == BaseStringOf(ToUpper(req.httpMethod), pe(BaseUri(req.url)), pe(ParamString(e1)));
    var p2, e2 :| IsMerge(req.query, oauth, p2) && IsEncoding(pe, p2, e2)
      && b2 == BaseStringOf(ToUpper(req.httpMethod), pe(BaseUri(req.url)), pe(ParamString(e2)));
    MergeUnique(req.query, oauth, p1, p2);
    EncodingUnique(pe, p1, e1);
    EncodingUnique(pe, p2, e2);
  }

  /**
   * When the encoder never writes `&`, the base string has exactly two `&`
   * besides those of the method: split at `&`, it gives the method's pieces,
   * the encoded URI and the encoded parameter string.
   */
  lemma BaseStringSeparators(pe: GoString -> GoString, httpMethod: GoString, uri: GoString, paramString: GoString)
    requires Avoids(pe, '&')
    ensures Split(BaseStringOf(httpMethod, pe(uri), pe(paramString)), '&')
         == Split(httpMethod, '&') + [pe(uri), pe(paramString)]
  {
    var u, p := pe(uri), pe(paramString);
    assert Split(p, '&') == [p] by {
      assert FirstIndex(p, '&') == |p|;
    }
    assert BaseStringOf(httpMethod, u, p) == httpMethod + ['&'] + (u + ['&'] + p);
    SplitAround(httpMethod, '&', u + ['&'] + p);
    SplitAfter(u, '&', p);
  }
}
