/**
 * The Authorization header (`authorizationHeader`, `setAuthorizationHeader`):
 * `OAuth ` followed by the percent-encoded `k=v` entries joined by `, `, in
 * the order Go happens to visit the encoded map. Values are not quoted, which
 * departs from section 3.5.1 of RFC 5849.
 */
module Header {
  import opened GoStrings
  import opened Sorting
  import opened PercentEncoding
  import opened Normalization
  import opened Http

  const AuthorizationName: GoString := "Authorization"
  /** The scheme prefix, with its trailing space. */
  const AuthorizationPrefix: GoString := "OAuth "
  const PairSeparator: GoString := ", "

  /**
   * `h` is a header the composition can produce for `params`: the entries
   * of one possible encoding, each once, in some order.
   */
  ghost predicate IsAuthorizationHeader(pe: GoString -> GoString, params: Params, h: GoString) {
    exists e, order :: IsEncoding(pe, params, e) && IsOrderOf(order, e)
      && h == AuthorizationPrefix + Join(PairsOf(order, e), PairSeparator)
  }

  /** `order` lists every key of `e` once. */
  ghost predicate IsOrderOf(order: seq<GoString>, e: Params) {
    Distinct(order) && forall k :: k in order <==> k in e
  }

  /**
   * The second loop of `authorizationHeader`: fills a slice of the size of
   * `e` with its `k=v` entries through a running index, in the order the
   * keys are visited, which `order` records.
   */
  method UnorderedPairs(e: Params) returns (pairs: array<GoString>, ghost order: seq<GoString>)
    ensures fresh(pairs)
    ensures IsOrderOf(order, e)
    ensures pairs[..] == PairsOf(order, e)
  {
    pairs := new GoString[|e|];
    order := [];
    var rest := e.Keys;
    var i := 0;
    while rest != {}
      invariant rest <= e.Keys
      invariant i == |order| && i + |rest| == |e|
      invariant Distinct(order)
      invariant forall k :: k in order <==> k in e.Keys - rest
      invariant forall j :: 0 <= j < i ==> order[j] in e
      invariant forall j :: 0 <= j < i ==> pairs[j] == Pair(order[j], e[order[j]])
      decreases rest
    {
      var k :| k in rest;
      assert k !in order;
      pairs[i] := Pair(k, e[k]);
      order := order + [k];
      i := i + 1;
      rest := rest - {k};
    }
  }

  /** `authorizationHeader`; `oauthParams` is a value and stays as it was. */
  method AuthorizationHeader(pe: GoString -> GoString, oauthParams: Params) returns (h: GoString)
    ensures IsAuthorizationHeader(pe, oauthParams, h)
  {
    var params := EncodeEach(pe, oauthParams);
    var pairs, order := UnorderedPairs(params);
    h := AuthorizationPrefix + Join(pairs[..], PairSeparator);
  }

  /** `setAuthorizationHeader`: the request's Authorization header is the composed one. */
  method SetAuthorizationHeader(pe: GoString -> GoString, req: Request, oauthParams: Params)
    returns (ghost h: GoString)
    modifies req
    ensures IsAuthorizationHeader(pe, oauthParams, h)
    ensures req.header == old(req.header)[AuthorizationName := [h]]
  {
    var authHeader := AuthorizationHeader(pe, oauthParams);
    h := authHeader;
    req.SetHeader(AuthorizationName, authHeader);
  }

  /** The entries of two key lists one after the other. */
  lemma PairsOfAppend(a: seq<GoString>, b: seq<GoString>, e: Params)
    requires forall k :: k in a ==> k in e
    requires forall k :: k in b ==> k in e
    ensures PairsOf(a + b, e) == PairsOf(a, e) + PairsOf(b, e)
  {
    var l, r := PairsOf(a + b, e), PairsOf(a, e) + PairsOf(b, e);
    forall i | 0 <= i < |l|
      ensures l[i] == r[i]
    {
      if i >= |a| {
        assert (a + b)[i] == b[i - |a|];
      }
    }
  }

  /** Taking one key out of a list takes its entry out of the entries. */
  lemma PairsAround(t: seq<GoString>, j: int, e: Params)
    requires 0 <= j < |t|
    requires forall k :: k in t ==> k in e
    ensures multiset(PairsOf(t, e))
         == multiset{Pair(t[j], e[t[j]])} + multiset(PairsOf(t[..j] + t[j + 1..], e))
  {
    var t1, x, t2 := t[..j], t[j], t[j + 1..];
    assert t == t1 + [x] + t2;
    PairsOfAppend(t1 + [x], t2, e);
    PairsOfAppend(t1, [x], e);
    PairsOfAppend(t1, t2, e);
    assert PairsOf([x], e) == [Pair(x, e[x])];
  }

  /** Taking the same element out of two rearrangements leaves rearrangements. */
  lemma RemoveMatching(s: seq<GoString>, t: seq<GoString>, j: int)
    requires s != [] && 0 <= j < |t| && t[j] == s[0]
    requires multiset(s) == multiset(t)
    ensures multiset(s[1..]) == multiset(t[..j] + t[j + 1..])
  {
    var x := s[0];
    assert s == [x] + s[1..];
    assert t == t[..j] + [x] + t[j + 1..];
    calc {
      multiset(s[1..]);
      multiset(s) - multiset{x};
      multiset(t) - multiset{x};
      { assert multiset(t) == multiset(t[..j]) + multiset{x} + multiset(t[j + 1..]); }
      multiset(t[..j]) + multiset(t[j + 1..]);
      multiset(t[..j] + t[j + 1..]);
    }
  }

  /** Listing the same keys in another order rearranges the entries. */
  lemma {:induction false} PairsPermutation(s: seq<GoString>, t: seq<GoString>, e: Params)
    requires forall k :: k in s ==> k in e
    requires forall k :: k in t ==> k in e
    requires multiset(s) == multiset(t)
    ensures multiset(PairsOf(s, e)) == multiset(PairsOf(t, e))
    decreases |s|
  {
    if s == [] {
      assert t == [] by {
        assert |t| == |multiset(t)|;
      }
    } else {
      assert s[0] in multiset(t);
      var j :| 0 <= j < |t| && t[j] == s[0];
      RemoveMatching(s, t, j);
      PairsPermutation(s[1..], t[..j] + t[j + 1..], e);
      PairsAround(t, j, e);
      PairsAround(s, 0, e);
      assert s[..0] + s[1..] == s[1..];
    }
  }

  /** The entries in any order of the keys are those of the parameter string, rearranged. */
  lemma OrderedPairsPermute(order: seq<GoString>, e: Params)
    requires IsOrderOf(order, e)
    ensures multiset(PairsOf(order, e)) == multiset(SortedPairs(e))
  {
    var sorted := SortedSeq(e.Keys);
    AscendingDistinct(sorted);
    DistinctSameElements(order, sorted);
    PairsPermutation(order, sorted, e);
  }

  /**
   * With an injective encoder the header holds exactly the entries of the
   * parameter string of `encodeParams`, each once, in some order.
   */
  lemma HeaderHoldsSortedPairs(pe: GoString -> GoString, params: Params, h: GoString)
    requires Injective(pe)
    requires IsAuthorizationHeader(pe, params, h)
    ensures exists pairs :: (h == AuthorizationPrefix + Join(pairs, PairSeparator)
      && multiset(pairs) == multiset(SortedPairs(Encoded(pe, params))))
  {
    var e, order :| IsEncoding(pe, params, e) && IsOrderOf(order, e)
      && h == AuthorizationPrefix + Join(PairsOf(order, e), PairSeparator);
    EncodingUnique(pe, params, e);
    OrderedPairsPermute(order, e);
  }
}
