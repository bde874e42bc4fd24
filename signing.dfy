/**
 * The signing key of `signature` (section 3.4.2 of RFC 5849): the consumer
 * secret and the token secret joined by `&`. The HMAC-SHA1 digest and its
 * base64 form are a parameter `mac` from key and message to signature.
 */
module Signing {
  import opened GoStrings

  /** `strings.Join([]string{consumerSecret, tokenSecret}, "&")`. */
  function SigningKey(consumerSecret: GoString, tokenSecret: GoString): (key: GoString)
    ensures |key| == |consumerSecret| + 1 + |tokenSecret|
    ensures key[..|consumerSecret|] == consumerSecret
    ensures key[|consumerSecret|] == '&'
    ensures key[|consumerSecret| + 1..] == tokenSecret
  {
    var key := Join([consumerSecret, tokenSecret], "&");
    assert [consumerSecret, tokenSecret][1..] == [tokenSecret];
    assert Join([tokenSecret], "&") == tokenSecret;
    assert key == consumerSecret + "&" + tokenSecret;
    key
  }

  /** The `&` is there even when the token secret is empty. */
  lemma SigningKeyEmptyToken(consumerSecret: GoString)
    ensures SigningKey(consumerSecret, []) == consumerSecret + "&"
  {
    var key := SigningKey(consumerSecret, []);
    assert key == key[..|consumerSecret|] + [key[|consumerSecret|]];
  }

  /**
   * A consumer secret without `&` can be read back from the key: the key
   * splits at its first `&` into the two secrets.
   */
  lemma SigningKeySplit(consumerSecret: GoString, tokenSecret: GoString)
    requires '&' !in consumerSecret
    ensures Split(SigningKey(consumerSecret, tokenSecret), '&') == [consumerSecret] + Split(tokenSecret, '&')
  {
    var key := SigningKey(consumerSecret, tokenSecret);
    assert key == consumerSecret + ['&'] + tokenSecret;
    SplitAfter(consumerSecret, '&', tokenSecret);
  }

  /** For consumer secrets without `&`, different secret pairs give different keys. */
  lemma SigningKeyInjective(cs1: GoString, ts1: GoString, cs2: GoString, ts2: GoString)
    requires '&' !in cs1 && '&' !in cs2
    requires SigningKey(cs1, ts1) == SigningKey(cs2, ts2)
    ensures cs1 == cs2 && ts1 == ts2
  {
    SigningKeySplit(cs1, ts1);
    SigningKeySplit(cs2, ts2);
    var key := SigningKey(cs1, ts1);
    assert ts1 == key[|cs1| + 1..];
  }

  /**
   * The secrets are joined as they are, not percent-encoded first as
   * section 3.4.2 of RFC 5849 asks, so an `&` inside a secret makes two
   * secret pairs share a key.
   */
  lemma SigningKeyUnencodedClash()
    ensures SigningKey("a&", "b") == SigningKey("a", "&b")
  {
    var k1, k2 := SigningKey("a&", "b"), SigningKey("a", "&b");
    assert k1 == k1[..2] + [k1[2]] + k1[3..];
    assert k2 == k2[..1] + [k2[1]] + k2[2..];
  }

  /** `signature`: the MAC of the message under the signing key. */
  function Signature(mac: (GoString, GoString) -> GoString,
                     consumerSecret: GoString, tokenSecret: GoString, message: GoString): (signature: GoString)
    ensures signature == mac(consumerSecret + "&" + tokenSecret, message)
  {
    mac(SigningKey(consumerSecret, tokenSecret), message)
  }
}
