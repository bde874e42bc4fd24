/**
 * Percent-encoding as section 3.6 of RFC 5849 prescribes (section 2.1 of
 * RFC 3986 with upper-case hex digits): the unreserved bytes
 * `A-Z a-z 0-9 - . _ ~` stand for themselves and every other byte becomes
 * `%` and two hex digits. The signing pipeline is stated for any encoder
 * function; this module gives the reference one and the properties of
 * encoders that the pipeline's lemmas rely on.
 */
module PercentEncoding {
  import opened GoStrings

  datatype Option<T> = None | Some(value: T)

  /** `pe` never maps two different strings to the same encoding. */
  ghost predicate Injective(pe: GoString -> GoString) {
    forall a, b :: pe(a) == pe(b) ==> a == b
  }

  /** `pe` never writes the byte `c` literally. */
  ghost predicate Avoids(pe: GoString -> GoString, c: Byte) {
    forall s :: c !in pe(s)
  }

  /** The unreserved bytes of section 2.3 of RFC 3986. */
  predicate IsUnreserved(b: Byte) {
    || 'A' <= b <= 'Z'
    || 'a' <= b <= 'z'
    || '0' <= b <= '9'
    || b == '-' || b == '.' || b == '_' || b == '~'
  }

  const HexDigits: GoString := "0123456789ABCDEF"

  /** The upper-case hex digit for `n`. */
  function HexDigit(n: int): (d: Byte)
    requires 0 <= n < 16
    ensures IsUnreserved(d)
    ensures '0' <= d <= '9' || 'A' <= d <= 'F'
  {
    HexDigits[n]
  }

  /** The value of an upper-case hex digit; None for any other byte. */
  function HexValue(d: Byte): (r: Option<int>)
    ensures r.Some? ==> 0 <= r.value < 16
  {
    if '0' <= d <= '9' then Some(d as int - '0' as int)
    else if 'A' <= d <= 'F' then Some(d as int - 'A' as int + 10)
    else None
  }

  lemma HexDigitValue(n: int)
    requires 0 <= n < 16
    ensures HexValue(HexDigit(n)) == Some(n)
  {
  }

  /** Bytes the encoder writes as themselves. */
  predicate PassesThrough(b: Byte) {
    IsUnreserved(b) || b as int >= 256
  }

  /**
   * The encoding of one byte. A char above 255 (which no Go string holds)
   * is let through unchanged, which keeps the encoder total and injective.
   */
  function EncodeByte(b: Byte): (r: GoString)
    ensures forall i :: 0 <= i < |r| ==> PassesThrough(r[i]) || r[i] == '%'
  {
    if PassesThrough(b) then [b]
    else ['%', HexDigit(b as int / 16), HexDigit(b as int % 16)]
  }

  /** The reference percent-encoder, byte by byte. */
  function PercentEncode(s: GoString): (r: GoString)
    ensures forall i :: 0 <= i < |r| ==> PassesThrough(r[i]) || r[i] == '%'
    decreases |s|
  {
    if s == [] then [] else EncodeByte(s[0]) + PercentEncode(s[1..])
  }

  /**
   * Percent-decoding: `%` and two upper-case hex digits give one byte, any
   * other byte stands for itself; a `%` not followed by two digits is an error.
   */
  function PercentDecode(s: GoString): Option<GoString>
    decreases |s|
  {
    if s == [] then Some([])
    else if s[0] != '%' then
      match PercentDecode(s[1..])
      case Some(rest) => Some([s[0]] + rest)
      case None => None
    else if |s| < 3 then None
    else
      match (HexValue(s[1]), HexValue(s[2]), PercentDecode(s[3..]))
      case (Some(hi), Some(lo), Some(rest)) => Some([(hi * 16 + lo) as char] + rest)
      case _ => None
  }

  /** Decoding the encoding of one byte followed by anything. */
  lemma DecodeAfterByte(b: Byte, t: GoString)
    ensures PercentDecode(EncodeByte(b) + t) ==
      match PercentDecode(t)
      case Some(rest) => Some([b] + rest)
      case None => None
  {
    var s := EncodeByte(b) + t;
    if PassesThrough(b) {
      assert s[0] == b && s[1..] == t;
    } else {
      HexDigitValue(b as int / 16);
      HexDigitValue(b as int % 16);
      assert s[0] == '%' && s[1] == HexDigit(b as int / 16) && s[2] == HexDigit(b as int % 16);
      assert s[3..] == t;
      assert (b as int / 16) * 16 + b as int % 16 == b as int;
    }
  }

  /** Decoding recovers what was encoded. */
  lemma {:induction false} PercentRoundTrip(s: GoString)
    ensures PercentDecode(PercentEncode(s)) == Some(s)
    decreases |s|
  {
    if s != [] {
      PercentRoundTrip(s[1..]);
      DecodeAfterByte(s[0], PercentEncode(s[1..]));
      assert [s[0]] + s[1..] == s;
    }
  }

  /** Encoding a string that starts with a known byte. */
  lemma PercentEncodeCons(x: Byte, t: GoString)
    ensures PercentEncode([x] + t) == EncodeByte(x) + PercentEncode(t)
  {
    assert ([x] + t)[0] == x && ([x] + t)[1..] == t;
  }

  /** Encoding distributes over concatenation. */
  lemma {:induction false} PercentEncodeAppend(a: GoString, b: GoString)
    ensures PercentEncode(a + b) == PercentEncode(a) + PercentEncode(b)
    decreases |a|
  {
    if a == [] {
      assert a + b == b;
    } else {
      var x, t := a[0], a[1..];
      assert a == [x] + t;
      assert a + b == [x] + (t + b);
      calc {
        PercentEncode(a + b);
        PercentEncode([x] + (t + b));
        { PercentEncodeCons(x, t + b); }
        EncodeByte(x) + PercentEncode(t + b);
        { PercentEncodeAppend(t, b); }
        EncodeByte(x) + (PercentEncode(t) + PercentEncode(b));
        (EncodeByte(x) + PercentEncode(t)) + PercentEncode(b);
        { PercentEncodeCons(x, t); }
        PercentEncode(a) + PercentEncode(b);
      }
    }
  }

  /**
   * The reference encoder is injective and writes none of the delimiters
   * the base string, the parameter string and the header rely on.
   */
  lemma PercentEncodeIsSafe()
    ensures Injective(PercentEncode)
    ensures forall c: Byte :: !PassesThrough(c) && c != '%' ==> Avoids(PercentEncode, c)
  {
    forall a, b | PercentEncode(a) == PercentEncode(b)
      ensures a == b
    {
      PercentRoundTrip(a);
      PercentRoundTrip(b);
    }
  }

  /** A string of unreserved bytes is its own encoding. */
  lemma {:induction false} PercentEncodeUnreserved(s: GoString)
    requires forall i :: 0 <= i < |s| ==> IsUnreserved(s[i])
    ensures PercentEncode(s) == s
    decreases |s|
  {
    if s != [] {
      PercentEncodeUnreserved(s[1..]);
      PercentEncodeCons(s[0], s[1..]);
      assert s == [s[0]] + s[1..];
    }
  }

  /** Encoding a string of one reserved byte. */
  lemma PercentEncodeReserved(c: Byte)
    requires !PassesThrough(c)
    ensures PercentEncode([c]) == ['%', HexDigit(c as int / 16), HexDigit(c as int % 16)]
  {
    PercentEncodeCons(c, []);
    assert [c] + [] == [c];
  }

  lemma PercentEncodeSpace()
    ensures PercentEncode(" ") == "%20"
  {
    PercentEncodeReserved(' ');
    assert HexDigit(2) == '2' && HexDigit(0) == '0';
  }

  lemma PercentEncodePlus()
    ensures PercentEncode("+") == "%2B"
  {
    PercentEncodeReserved('+');
    assert HexDigit(2) == '2' && HexDigit(11) == 'B';
  }

  lemma PercentEncodeEquals()
    ensures PercentEncode("=") == "%3D"
  {
    PercentEncodeReserved('=');
    assert HexDigit(3) == '3' && HexDigit(13) == 'D';
  }

  /** `a=b` encodes as `a%3Db`. */
  lemma PercentEncodeExampleEquals()
    ensures PercentEncode("a=b") == "a%3Db"
  {
    PercentEncodeAppend("a", "=b");
    PercentEncodeAppend("=", "b");
    PercentEncodeUnreserved("a");
    PercentEncodeUnreserved("b");
    PercentEncodeEquals();
    assert "a" + "=b" == "a=b" && "=" + "b" == "=b";
  }

  /** Two words that encode as themselves, around ` + `: the three middle bytes are escaped. */
  lemma PercentEncodeSpacedPlus(w1: GoString, w2: GoString)
    requires PercentEncode(w1) == w1 && PercentEncode(w2) == w2
    ensures PercentEncode(w1 + " " + "+" + " " + w2) == w1 + "%20" + "%2B" + "%20" + w2
  {
    PercentEncodeSpace();
    PercentEncodePlus();
    PercentEncodeAppend(w1, " ");
    PercentEncodeAppend(w1 + " ", "+");
    PercentEncodeAppend(w1 + " " + "+", " ");
    PercentEncodeAppend(w1 + " " + "+" + " ", w2);
  }

  /**
   * `Ladies + Gentlemen` encodes as `Ladies%20%2B%20Gentlemen`: a space is
   * never written as `+`. (The literals are given in pieces.)
   */
  lemma PercentEncodeExampleSpace()
    ensures PercentEncode("Ladies" + " " + "+" + " " + "Gentlemen")
         == "Ladies" + "%20" + "%2B" + "%20" + "Gentlemen"
  {
    PercentEncodeUnreserved("Ladies");
    PercentEncodeUnreserved("Gentlemen");
    PercentEncodeSpacedPlus("Ladies", "Gentlemen");
  }
}
