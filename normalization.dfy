/**
 * Parameter normalisation (`encodeParams`): every key and value is
 * percent-encoded into a fresh map, the encoded keys are sorted byte-wise,
 * each entry is written `k=v`, and the entries are joined by `&` -- the
 * parameter string of section 3.4.1.3.2 of RFC 5849.
 *
 * The encoder is a parameter `pe`. Go visits the entries of a map in an
 * unspecified order, so when `pe` maps two keys to the same string the entry
 * written last wins; `IsEncoding` therefore describes every map the encoding
 * loop can produce, and `EncodingUnique` shows that there is exactly one when
 * `pe` is injective.
 */
module Normalization {
  import opened GoStrings
  import opened Sorting
  import opened PercentEncoding

  type Params = map<GoString, GoString>

  /**
   * `e` is what the encoding loop can hold after visiting the keys `done` of
   * `m`: one key `pe(k)` per visited `k`, each carrying the encoding of the
   * value of one of the visited keys that encode to it.
   */
  ghost predicate EncodesKeys(pe: GoString -> GoString, m: Params, done: set<GoString>, e: Params) {
    && e.Keys == (set k | k in done :: pe(k))
    && forall ek :: ek in e ==> exists k :: k in done && k in m && pe(k) == ek && e[ek] == pe(m[k])
  }

  /** `e` is a possible result of encoding every entry of `m`. */
  ghost predicate IsEncoding(pe: GoString -> GoString, m: Params, e: Params) {
    EncodesKeys(pe, m, m.Keys, e)
  }

  /** The encoding of `m` when no two keys collide. */
  function Encoded(pe: GoString -> GoString, m: Params): Params
    requires Injective(pe)
  {
    map k | k in m :: pe(k) := pe(m[k])
  }

  /**
   * With an injective encoder the encoding loop has one possible result,
   * whatever order it visits the entries in, and keeps one entry per key.
   */
  lemma EncodingUnique(pe: GoString -> GoString, m: Params, e: Params)
    requires Injective(pe)
    requires IsEncoding(pe, m, e)
    ensures e == Encoded(pe, m)
    ensures |e| == |m|
  {
    var enc := Encoded(pe, m);
    forall ek | ek in e
      ensures ek in enc && e[ek] == enc[ek]
    {
      var k :| k in m && pe(k) == ek && e[ek] == pe(m[k]);
    }
    forall ek | ek in enc
      ensures ek in e
    {
      var k :| k in m && pe(k) == ek;
    }
    assert e == enc;
    InjectiveImageSize(pe, m.Keys);
  }

  /** An injective function keeps the size of a set. */
  lemma {:induction false} InjectiveImageSize(pe: GoString -> GoString, s: set<GoString>)
    requires Injective(pe)
    ensures |set k | k in s :: pe(k)| == |s|
    decreases s
  {
    if s != {} {
      var x :| x in s;
      InjectiveImageSize(pe, s - {x});
      var img := set k | k in s - {x} :: pe(k);
      assert (set k | k in s :: pe(k)) == img + {pe(x)};
      assert pe(x) !in img;
    }
  }

  /** One more visited key: the loop's invariant is kept. */
  lemma EncodeStep(pe: GoString -> GoString, m: Params, done: set<GoString>, e: Params, k: GoString)
    requires EncodesKeys(pe, m, done, e)
    requires k in m
    ensures EncodesKeys(pe, m, done + {k}, e[pe(k) := pe(m[k])])
  {
    var e' := e[pe(k) := pe(m[k])];
    assert e'.Keys == (set x | x in done + {k} :: pe(x)) by {
      assert e'.Keys == e.Keys + {pe(k)};
    }
    forall ek | ek in e'
      ensures exists x :: x in done + {k} && x in m && pe(x) == ek && e'[ek] == pe(m[x])
    {
      if ek == pe(k) {
        assert k in done + {k};
      } else {
        var x :| x in done && x in m && pe(x) == ek && e[ek] == pe(m[x]);
        assert x in done + {k};
      }
    }
  }

  /** The encoding loop (the first loop of `encodeParams` and of `authorizationHeader`). */
  method EncodeEach(pe: GoString -> GoString, m: Params) returns (e: Params)
    ensures IsEncoding(pe, m, e)
  {
    e := map[];
    ghost var done: set<GoString> := {};
    var rest := m.Keys;
    while rest != {}
      invariant done <= m.Keys && rest == m.Keys - done
      invariant EncodesKeys(pe, m, done, e)
      decreases rest
    {
      var k :| k in rest;
      EncodeStep(pe, m, done, e, k);
      e := e[pe(k) := pe(m[k])];
      done := done + {k};
      rest := rest - {k};
    }
  }

  /** Encoding with an encoder that never writes `c` leaves `c` out of every key and value. */
  lemma EncodingAvoids(pe: GoString -> GoString, m: Params, e: Params, c: Byte)
    requires Avoids(pe, c)
    requires IsEncoding(pe, m, e)
    ensures forall ek :: ek in e ==> c !in ek && c !in e[ek]
  {
    forall ek | ek in e
      ensures c !in ek && c !in e[ek]
    {
      var k :| k in m && pe(k) == ek && e[ek] == pe(m[k]);
    }
  }

  /**
   * Fills a slice of the size of `e` with its keys, one per slot, through a
   * running index.
   */
  method KeysOf(e: Params) returns (keys: array<GoString>)
    ensures fresh(keys)
    ensures keys.Length == |e|
    ensures Distinct(keys[..])
    ensures forall k :: k in keys[..] <==> k in e
  {
    keys := new GoString[|e|];
    var rest := e.Keys;
    var i := 0;
    while rest != {}
      invariant rest <= e.Keys
      invariant i + |rest| == |e|
      invariant forall k :: k in keys[..i] <==> k in e.Keys - rest
      invariant Distinct(keys[..i])
      decreases rest
    {
      var k :| k in rest;
      assert k !in keys[..i];
      keys[i] := k;
      assert keys[..i + 1] == keys[..i] + [k];
      i := i + 1;
      rest := rest - {k};
    }
    assert keys[..i] == keys[..];
  }

  /**
   * The key slice of `encodeParams` after `sort.Strings`: the keys of `e`
   * in ascending byte order, each once.
   */
  method SortedKeys(e: Params) returns (keys: array<GoString>)
    ensures fresh(keys)
    ensures keys[..] == SortedSeq(e.Keys)
  {
    keys := KeysOf(e);
    ghost var unsorted := keys[..];
    SortStrings(keys);
    PermutationDistinct(unsorted, keys[..]);
    DistinctNonDescending(keys[..]);
    forall k
      ensures k in keys[..] <==> k in e.Keys
    {
      assert k in keys[..] <==> k in multiset(keys[..]);
      assert k in unsorted <==> k in multiset(unsorted);
    }
    SortedSeqUnique(keys[..], e.Keys);
  }

  /** The `k=v` form of one entry. */
  function Pair(k: GoString, v: GoString): GoString {
    k + "=" + v
  }

  /** The `k=v` entries of `e` for `keys`, in their order. */
  function PairsOf(keys: seq<GoString>, e: Params): (r: seq<GoString>)
    requires forall k :: k in keys ==> k in e
    ensures |r| == |keys|
  {
    seq(|keys|, i requires 0 <= i < |keys| => Pair(keys[i], e[keys[i]]))
  }

  /** The pair slice of `encodeParams`: slot `i` holds `k=v` for the `i`-th key. */
  method FormatPairs(keys: array<GoString>, e: Params) returns (pairs: array<GoString>)
    requires forall k :: k in keys[..] ==> k in e
    ensures fresh(pairs)
    ensures pairs[..] == PairsOf(keys[..], e)
  {
    pairs := new GoString[keys.Length];
    for i := 0 to keys.Length
      invariant forall j :: 0 <= j < i ==> pairs[j] == Pair(keys[j], e[keys[j]])
    {
      pairs[i] := Pair(keys[i], e[keys[i]]);
    }
  }

  /** The entries of an encoded map by ascending key. */
  ghost function SortedPairs(e: Params): seq<GoString> {
    PairsOf(SortedSeq(e.Keys), e)
  }

  /** The parameter string of an encoded map: its entries by ascending key, joined by `&`. */
  ghost function ParamString(e: Params): GoString {
    Join(SortedPairs(e), "&")
  }

  /**
   * `encodeParams`: the parameter string of an encoding of `m`. With an
   * injective encoder that encoding is `Encoded(pe, m)` (`EncodingUnique`),
   * so the string does not depend on the order the map is visited in.
   */
  method EncodeParams(pe: GoString -> GoString, m: Params) returns (s: GoString, ghost e: Params)
    ensures IsEncoding(pe, m, e)
    ensures s == ParamString(e)
    ensures Injective(pe) ==> s == ParamString(Encoded(pe, m))
  {
    var params := EncodeEach(pe, m);
    e := params;
    var keys := SortedKeys(params);
    var pairs := FormatPairs(keys, params);
    s := Join(pairs[..], "&");
    if Injective(pe) {
      EncodingUnique(pe, m, e);
    }
  }

  /** An entry whose key has no `=` splits at its first `=` into key and value. */
  lemma PairSplit(k: GoString, v: GoString)
    requires '=' !in k && '=' !in v
    ensures Split(Pair(k, v), '=') == [k, v]
  {
    SplitAfter(k, '=', v);
    assert Split(v, '=') == [v] by {
      assert FirstIndex(v, '=') == |v|;
    }
    assert Pair(k, v) == k + ['='] + v;
  }

  /**
   * The parameter string can be read back: split at `&` it gives the
   * entries in ascending key order, and each entry split at `=` gives its
   * key and value, provided no key or value holds `&` or `=` (the encoders
   * of section 3.6 of RFC 5849 never write either).
   */
  lemma ParamStringPieces(e: Params)
    requires e != map[]
    requires forall k :: k in e ==> '&' !in k && '&' !in e[k] && '=' !in k && '=' !in e[k]
    ensures var keys := SortedSeq(e.Keys);
      && Split(ParamString(e), '&') == PairsOf(keys, e)
      && forall i :: 0 <= i < |keys| ==> Split(PairsOf(keys, e)[i], '=') == [keys[i], e[keys[i]]]
  {
    var keys := SortedSeq(e.Keys);
    var pairs := PairsOf(keys, e);
    assert |keys| >= 1 by {
      var k :| k in e;
    }
    forall i | 0 <= i < |pairs|
      ensures '&' !in pairs[i]
      ensures Split(pairs[i], '=') == [keys[i], e[keys[i]]]
    {
      PairSplit(keys[i], e[keys[i]]);
    }
    SplitJoin(pairs, '&');
  }

  /** An injective encoder that leaves the keys and values of `m` as they are encodes `m` as itself. */
  lemma EncodingFixed(pe: GoString -> GoString, m: Params, e: Params)
    requires Injective(pe)
    requires IsEncoding(pe, m, e)
    requires forall k :: k in m ==> pe(k) == k && pe(m[k]) == m[k]
    ensures e == m
  {
    EncodingUnique(pe, m, e);
  }

  /** The parameter string of two entries lists the smaller key first. */
  lemma ParamStringTwo(k1: GoString, v1: GoString, k2: GoString, v2: GoString)
    requires Below(k1, k2)
    ensures ParamString(map[k1 := v1, k2 := v2]) == Pair(k1, v1) + "&" + Pair(k2, v2)
  {
    var e := map[k1 := v1, k2 := v2];
    BelowIrreflexive(k1);
    assert k1 != k2;
    SortedSeqUnique([k1, k2], e.Keys);
    var pairs := SortedPairs(e);
    assert pairs == [Pair(k1, v1), Pair(k2, v2)];
    assert pairs[1..] == [Pair(k2, v2)];
    assert Join(pairs, "&") == pairs[0] + "&" + Join(pairs[1..], "&");
  }

  /** The parameters of the example in sign.go's comment. */
  const ExampleParams: Params := map["foo" := "bar", "q" := "gopher"]

  /** The parameter string of the example: `foo=bar&q=gopher`. */
  lemma ParamStringExample()
    ensures ParamString(ExampleParams) == Pair("foo", "bar") + "&" + Pair("q", "gopher")
  {
    assert Below("foo", "q");
    ParamStringTwo("foo", "bar", "q", "gopher");
  }

  /** The reference encoder keeps the example's keys as they are. */
  lemma ExampleKeysUnchanged()
    ensures PercentEncode("foo") == "foo" && PercentEncode("q") == "q"
  {
    PercentEncodeUnreserved("foo");
    PercentEncodeUnreserved("q");
  }

  /** The reference encoder keeps the example's values as they are. */
  lemma ExampleValuesUnchanged()
    ensures PercentEncode("bar") == "bar" && PercentEncode("gopher") == "gopher"
  {
    PercentEncodeUnreserved("bar");
    PercentEncodeUnreserved("gopher");
  }

  /**
   * The example of sign.go's comment: an injective encoder that keeps the
   * example's words -- the reference encoder does, by `PercentEncodeIsSafe`,
   * `ExampleKeysUnchanged` and `ExampleValuesUnchanged` -- normalises `{foo: bar, q: gopher}` to
   * `foo=bar&q=gopher`, whatever order the map is visited in.
   */
  lemma EncodeParamsExample(pe: GoString -> GoString, e: Params)
    requires Injective(pe)
    requires pe("foo") == "foo" && pe("bar") == "bar" && pe("q") == "q" && pe("gopher") == "gopher"
    requires IsEncoding(pe, ExampleParams, e)
    ensures ParamString(e) == Pair("foo", "bar") + "&" + Pair("q", "gopher")
  {
    assert ExampleParams.Keys == {"foo", "q"};
    EncodingFixed(pe, ExampleParams, e);
    ParamStringExample();
  }

  /**
   * The same example under the reference encoder: every visiting order
   * normalises `{foo: bar, q: gopher}` to `foo=bar&q=gopher`.
   */
  lemma ReferenceEncodeParamsExample(e: Params)
    requires IsEncoding(PercentEncode, ExampleParams, e)
    ensures ParamString(e) == Pair("foo", "bar") + "&" + Pair("q", "gopher")
  {
    PercentEncodeIsSafe();
    ExampleKeysUnchanged();
    ExampleValuesUnchanged();
    EncodeParamsExample(PercentEncode, e);
  }
}
