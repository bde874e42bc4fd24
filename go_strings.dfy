/**
 * Go strings as byte sequences, with the pieces of Go's `strings` package and
 * of Go's built-in string ordering that the signing pipeline relies on:
 * byte-wise `<` (used by `sort.Strings`), `strings.Join`, `strings.Split` on a
 * one-byte separator and the ASCII part of `strings.ToUpper`.
 */
module GoStrings {

  /**
   * One byte of a Go string. A byte is written as the char with the same
   * code, so the strings of the model hold chars below 256 only; the type
   * does not enforce this, and nothing in the pipeline depends on it.
   */
  type Byte = char

  /** A Go `string`: an immutable sequence of bytes. */
  type GoString = seq<Byte>

  /** Go's `a < b` on strings: byte-wise lexicographic order. */
  predicate Below(a: GoString, b: GoString)
    decreases |a|
  {
    if a == [] then b != []
    else if b == [] then false
    else a[0] < b[0] || (a[0] == b[0] && Below(a[1..], b[1..]))
  }

  lemma {:induction false} BelowIrreflexive(a: GoString)
    ensures !Below(a, a)
    decreases |a|
  {
    if a != [] {
      BelowIrreflexive(a[1..]);
    }
  }

  lemma {:induction false} BelowAsymmetric(a: GoString, b: GoString)
    ensures Below(a, b) ==> !Below(b, a)
    decreases |a|
  {
    if a != [] && b != [] && a[0] == b[0] {
      BelowAsymmetric(a[1..], b[1..]);
    }
  }

  lemma {:induction false} BelowTransitive(a: GoString, b: GoString, c: GoString)
    requires Below(a, b) && Below(b, c)
    ensures Below(a, c)
    decreases |a|
  {
    if a != [] && a[0] == b[0] && b[0] == c[0] {
      BelowTransitive(a[1..], b[1..], c[1..]);
    }
  }

  /** Any two different strings are ordered one way or the other. */
  lemma {:induction false} BelowTotal(a: GoString, b: GoString)
    ensures a == b || Below(a, b) || Below(b, a)
    decreases |a|
  {
    if a != [] && b != [] && a[0] == b[0] {
      BelowTotal(a[1..], b[1..]);
      if a[1..] == b[1..] {
        assert a == [a[0]] + a[1..] && b == [b[0]] + b[1..];
      }
    }
  }

  /** Go's `strings.Join(parts, sep)`. */
  function Join(parts: seq<GoString>, sep: GoString): (r: GoString)
    ensures |parts| > 0 ==> parts[0] <= r
    ensures |parts| > 1 ==> parts[0] + sep <= r
    decreases |parts|
  {
    if |parts| == 0 then []
    else if |parts| == 1 then parts[0]
    else parts[0] + sep + Join(parts[1..], sep)
  }

  /** Joining three parts. */
  lemma JoinThree(a: GoString, b: GoString, c: GoString, sep: GoString)
    ensures Join([a, b, c], sep) == a + sep + b + sep + c
  {
    var parts := [a, b, c];
    assert parts[1..] == [b, c] && parts[1..][1..] == [c];
    assert Join([c], sep) == c;
    assert Join([b, c], sep) == b + sep + c;
    assert Join(parts, sep) == a + sep + (b + sep + c);
  }

  /** Position of the first `c` in `s`, or `|s|` when there is none. */
  function FirstIndex(s: GoString, c: Byte): (i: nat)
    ensures i <= |s|
    ensures c !in s[..i]
    ensures i < |s| ==> s[i] == c
    decreases |s|
  {
    if s == [] || s[0] == c then 0 else 1 + FirstIndex(s[1..], c)
  }

  /**
   * Go's `strings.Split(s, string(c))`: the pieces of `s` between the
   * occurrences of `c`; never empty (the empty string gives one empty piece).
   */
  function Split(s: GoString, c: Byte): (r: seq<GoString>)
    ensures |r| >= 1
    ensures forall i :: 0 <= i < |r| ==> c !in r[i]
    decreases |s|
  {
    var i := FirstIndex(s, c);
    if i == |s| then [s] else [s[..i]] + Split(s[i + 1..], c)
  }

  /** A piece without the separator, then the separator, starts a split. */
  lemma SplitAfter(a: GoString, c: Byte, b: GoString)
    requires c !in a
    ensures Split(a + [c] + b, c) == [a] + Split(b, c)
  {
    var s := a + [c] + b;
    FirstIndexOf(a, c, b);
    assert s[..|a|] == a && s[|a| + 1..] == b;
  }

  /** Where the first separator sits in `a + [c] + b` when `a` has none. */
  lemma {:induction false} FirstIndexOf(a: GoString, c: Byte, b: GoString)
    requires c !in a
    ensures FirstIndex(a + [c] + b, c) == |a|
    decreases |a|
  {
    if a != [] {
      assert (a + [c] + b)[1..] == a[1..] + [c] + b;
      FirstIndexOf(a[1..], c, b);
    }
  }

  /** A separator between two strings divides their pieces. */
  lemma {:induction false} SplitAround(a: GoString, c: Byte, b: GoString)
    ensures Split(a + [c] + b, c) == Split(a, c) + Split(b, c)
    decreases |a|
  {
    var i := FirstIndex(a, c);
    if i == |a| {
      SplitAfter(a, c, b);
    } else {
      var a1, a2 := a[..i], a[i + 1..];
      assert a == a1 + [c] + a2;
      calc {
        Split(a + [c] + b, c);
        { assert a + [c] + b == a1 + [c] + (a2 + [c] + b); }
        Split(a1 + [c] + (a2 + [c] + b), c);
        { SplitAfter(a1, c, a2 + [c] + b); }
        [a1] + Split(a2 + [c] + b, c);
        { SplitAround(a2, c, b); }
        [a1] + (Split(a2, c) + Split(b, c));
        ([a1] + Split(a2, c)) + Split(b, c);
        { SplitAfter(a1, c, a2); }
        Split(a, c) + Split(b, c);
      }
    }
  }

  /** Splitting undoes joining when no part contains the separator. */
  lemma {:induction false} SplitJoin(parts: seq<GoString>, c: Byte)
    requires |parts| >= 1
    requires forall i :: 0 <= i < |parts| ==> c !in parts[i]
    ensures Split(Join(parts, [c]), c) == parts
    decreases |parts|
  {
    if |parts| == 1 {
      assert FirstIndex(parts[0], c) == |parts[0]|;
    } else {
      SplitJoin(parts[1..], c);
      SplitAfter(parts[0], c, Join(parts[1..], [c]));
      assert [parts[0]] + parts[1..] == parts;
    }
  }

  /** Joining the pieces of a split with the separator gives the string back. */
  lemma {:induction false} JoinSplit(s: GoString, c: Byte)
    ensures Join(Split(s, c), [c]) == s
    decreases |s|
  {
    var i := FirstIndex(s, c);
    if i < |s| {
      var rest := Split(s[i + 1..], c);
      JoinSplit(s[i + 1..], c);
      assert ([s[..i]] + rest)[1..] == rest;
      assert s == s[..i] + [c] + s[i + 1..];
    }
  }

  /** Upper-cases an ASCII letter and leaves every other byte alone. */
  function UpperByte(b: Byte): (r: Byte)
    ensures 'a' <= b <= 'z' ==> 'A' <= r <= 'Z' && r as int + 32 == b as int
    ensures !('a' <= b <= 'z') ==> r == b
  {
    if 'a' <= b <= 'z' then (b as int - 32) as char else b
  }

  /** Go's `strings.ToUpper`, on ASCII text. */
  function ToUpper(s: GoString): (r: GoString)
    ensures |r| == |s|
    ensures forall i :: 0 <= i < |s| ==> r[i] == UpperByte(s[i])
    decreases |s|
  {
    if s == [] then [] else [UpperByte(s[0])] + ToUpper(s[1..])
  }

  /** Upper-casing leaves no lower-case letter and is idempotent. */
  lemma {:induction false} ToUpperNormalizes(s: GoString)
    ensures forall i :: 0 <= i < |ToUpper(s)| ==> !('a' <= ToUpper(s)[i] <= 'z')
    ensures ToUpper(ToUpper(s)) == ToUpper(s)
  {
  }
}
