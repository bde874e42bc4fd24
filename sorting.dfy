/**
 * Ordering of Go strings: the specification of a sorted key list (the unique
 * strictly ascending sequence of a set of keys) and `sort.Strings`, the
 * in-place sort that the normaliser applies to its key slice.
 */
module Sorting {
  import opened GoStrings

  /** Every element is below every later one (so no element repeats). */
  ghost predicate StrictlyAscending(s: seq<GoString>) {
    forall i, j :: 0 <= i < j < |s| ==> Below(s[i], s[j])
  }

  /** No element repeats. */
  ghost predicate Distinct(s: seq<GoString>) {
    forall i, j :: 0 <= i < j < |s| ==> s[i] != s[j]
  }

  /** No neighbour in `s[lo..hi]` is out of order. */
  ghost predicate NonDescendingIn(s: seq<GoString>, lo: int, hi: int)
    requires 0 <= lo <= hi <= |s|
  {
    forall k :: lo <= k < hi - 1 ==> !Below(s[k + 1], s[k])
  }

  /** What `sort.Strings` establishes: ascending, repeats allowed. */
  ghost predicate NonDescending(s: seq<GoString>) {
    NonDescendingIn(s, 0, |s|)
  }

  /** `m` is the least of `keys`. */
  ghost predicate IsLeast(m: GoString, keys: set<GoString>) {
    m in keys && forall x :: x in keys && x != m ==> Below(m, x)
  }

  /** The least element of a non-empty set of keys. */
  ghost function Least(keys: set<GoString>): (m: GoString)
    requires keys != {}
    ensures m in keys
    ensures forall x :: x in keys && x != m ==> Below(m, x)
  {
    LeastExists(keys);
    var m :| IsLeast(m, keys); m
  }

  lemma {:induction false} LeastExists(keys: set<GoString>)
    requires keys != {}
    ensures exists m :: IsLeast(m, keys)
    decreases keys
  {
    var y :| y in keys;
    if keys == {y} {
      assert IsLeast(y, keys);
    } else {
      LeastExists(keys - {y});
      var m :| IsLeast(m, keys - {y});
      BelowTotal(y, m);
      if Below(y, m) {
        forall x | x in keys && x != y
          ensures Below(y, x)
        {
          if x != m {
            assert x in keys - {y};
            BelowTransitive(y, m, x);
          }
        }
        assert IsLeast(y, keys);
      } else {
        forall x | x in keys && x != m
          ensures Below(m, x)
        {
          if x != y {
            assert x in keys - {y};
          }
        }
        assert IsLeast(m, keys);
      }
    }
  }

  /**
   * The keys of a set listed in ascending byte order, each once: the order
   * in which section 3.4.1.3.2 of RFC 5849 lists parameters.
   */
  ghost function SortedSeq(keys: set<GoString>): (r: seq<GoString>)
    ensures StrictlyAscending(r)
    ensures forall k :: k in r <==> k in keys
    ensures |r| == |keys|
    decreases keys
  {
    if keys == {} then []
    else
      var m := Least(keys);
      var rest := SortedSeq(keys - {m});
      assert forall j :: 0 <= j < |rest| ==> Below(m, rest[j]) by {
        forall j | 0 <= j < |rest| ensures Below(m, rest[j]) {
          assert rest[j] in keys - {m};
        }
      }
      [m] + rest
  }

  /** A strictly ascending listing of a set is the sorted one: there is only one. */
  lemma {:induction false} SortedSeqUnique(s: seq<GoString>, keys: set<GoString>)
    requires StrictlyAscending(s)
    requires forall k :: k in s <==> k in keys
    ensures s == SortedSeq(keys)
    decreases |s|
  {
    if s == [] {
      assert keys == {};
    } else {
      assert s[0] in keys;
      var m := Least(keys);
      if s[0] != m {
        assert m in s;
        var j :| 0 <= j < |s| && s[j] == m;
        assert Below(s[0], m);
        BelowAsymmetric(s[0], m);
        assert false;
      }
      forall k
        ensures k in s[1..] <==> k in keys - {m}
      {
        if k in s[1..] {
          var j :| 0 <= j < |s[1..]| && s[1..][j] == k;
          assert Below(s[0], s[j + 1]);
          BelowIrreflexive(s[0]);
        }
        if k in keys - {m} {
          assert k in s;
          var j :| 0 <= j < |s| && s[j] == k;
          assert j != 0;
          assert s[1..][j - 1] == k;
        }
      }
      SortedSeqUnique(s[1..], keys - {m});
      assert s == [m] + s[1..];
    }
  }

  /** Ascending without repeats is strictly ascending. */
  lemma {:induction false} DistinctNonDescending(s: seq<GoString>)
    requires NonDescending(s) && Distinct(s)
    ensures StrictlyAscending(s)
    decreases |s|
  {
    if |s| > 1 {
      var t := s[1..];
      assert NonDescending(t) by {
        forall k | 0 <= k < |t| - 1 ensures !Below(t[k + 1], t[k]) {
          assert t[k] == s[k + 1] && t[k + 1] == s[k + 2];
        }
      }
      DistinctNonDescending(t);
      assert Below(s[0], s[1]) by {
        BelowTotal(s[0], s[1]);
      }
      forall i, j | 0 <= i < j < |s|
        ensures Below(s[i], s[j])
      {
        if i == 0 && j > 1 {
          assert Below(t[0], t[j - 1]);
          BelowTransitive(s[0], s[1], s[j]);
        } else if i > 0 {
          assert Below(t[i - 1], t[j - 1]);
        }
      }
    }
  }

  /** A sequence without repeats has every element at most once in its multiset. */
  lemma {:induction false} DistinctCounts(s: seq<GoString>)
    requires Distinct(s)
    ensures forall x :: multiset(s)[x] <= 1
    decreases |s|
  {
    if s != [] {
      var t := s[1..];
      assert Distinct(t) by {
        forall i, j | 0 <= i < j < |t| ensures t[i] != t[j] {
          assert t[i] == s[i + 1] && t[j] == s[j + 1];
        }
      }
      DistinctCounts(t);
      assert s == [s[0]] + t;
      assert s[0] !in t by {
        forall j | 0 <= j < |t| ensures t[j] != s[0] {
          assert t[j] == s[j + 1];
        }
      }
      assert multiset(s) == multiset{s[0]} + multiset(t);
    }
  }

  /** A sequence whose multiset has no element twice has no repeats. */
  lemma CountsDistinct(s: seq<GoString>)
    requires forall x :: multiset(s)[x] <= 1
    ensures Distinct(s)
  {
    forall i, j | 0 <= i < j < |s|
      ensures s[i] != s[j]
    {
      assert s == s[..j] + [s[j]] + s[j + 1..];
      assert multiset(s)[s[j]] == multiset(s[..j])[s[j]] + 1 + multiset(s[j + 1..])[s[j]];
      assert s[j] !in multiset(s[..j]);
      assert s[..j][i] == s[i];
    }
  }

  /** Two sequences without repeats that hold the same elements are rearrangements of each other. */
  lemma DistinctSameElements(s: seq<GoString>, t: seq<GoString>)
    requires Distinct(s) && Distinct(t)
    requires forall x :: x in s <==> x in t
    ensures multiset(s) == multiset(t)
  {
    DistinctCounts(s);
    DistinctCounts(t);
    forall x
      ensures multiset(s)[x] == multiset(t)[x]
    {
      assert x in s <==> x in multiset(s);
      assert x in t <==> x in multiset(t);
    }
  }

  /** A strictly ascending sequence has no repeats. */
  lemma AscendingDistinct(s: seq<GoString>)
    requires StrictlyAscending(s)
    ensures Distinct(s)
  {
    forall i, j | 0 <= i < j < |s|
      ensures s[i] != s[j]
    {
      BelowIrreflexive(s[i]);
    }
  }

  /** Rearranging a sequence without repeats keeps it without repeats. */
  lemma PermutationDistinct(s: seq<GoString>, t: seq<GoString>)
    requires Distinct(s) && multiset(s) == multiset(t)
    ensures Distinct(t)
  {
    DistinctCounts(s);
    CountsDistinct(t);
  }

  /**
   * Go's `sort.Strings`: sorts the slice in place into ascending byte order.
   * The library's own algorithm is not modelled; this insertion sort meets
   * the same contract.
   */
  method SortStrings(a: array<GoString>)
    modifies a
    ensures NonDescending(a[..])
    ensures multiset(a[..]) == old(multiset(a[..]))
  {
    var i := 0;
    while i < a.Length
      invariant 0 <= i <= a.Length
      invariant NonDescendingIn(a[..], 0, i)
      invariant multiset(a[..]) == old(multiset(a[..]))
    {
      InsertLast(a, i);
      i := i + 1;
    }
  }

  /** Moves `a[i]` down into the sorted run `a[..i]`. */
  method InsertLast(a: array<GoString>, i: int)
    requires 0 <= i < a.Length
    requires NonDescendingIn(a[..], 0, i)
    modifies a
    ensures NonDescendingIn(a[..], 0, i + 1)
    ensures multiset(a[..]) == old(multiset(a[..]))
  {
    var j := i;
    while j > 0 && Below(a[j], a[j - 1])
      invariant 0 <= j <= i
      invariant NonDescendingIn(a[..], 0, j)
      invariant NonDescendingIn(a[..], j, i + 1)
      invariant 0 < j < i ==> !Below(a[j + 1], a[j - 1])
      invariant multiset(a[..]) == old(multiset(a[..]))
      decreases j
    {
      ghost var before := a[..];
      a[j - 1], a[j] := a[j], a[j - 1];
      SwapKeepsOrder(before, a[..], i, j);
      j := j - 1;
    }
    SortedRuns(a[..], j, i + 1);
  }

  /** Swapping an out-of-order neighbour pair moves the gap one step down. */
  lemma SwapKeepsOrder(s: seq<GoString>, t: seq<GoString>, i: int, j: int)
    requires 0 < j <= i < |s|
    requires t == s[j - 1 := s[j]][j := s[j - 1]]
    requires Below(s[j], s[j - 1])
    requires NonDescendingIn(s, 0, j) && NonDescendingIn(s, j, i + 1)
    requires 0 < j < i ==> !Below(s[j + 1], s[j - 1])
    ensures NonDescendingIn(t, 0, j - 1) && NonDescendingIn(t, j - 1, i + 1)
    ensures 0 < j - 1 < i ==> !Below(t[j], t[j - 2])
  {
    BelowAsymmetric(s[j], s[j - 1]);
    forall k | j - 1 <= k < i
      ensures !Below(t[k + 1], t[k])
    {
      if k > j {
        assert t[k] == s[k] && t[k + 1] == s[k + 1];
      }
    }
  }

  /** Two ascending runs that meet in order make one ascending run. */
  lemma SortedRuns(s: seq<GoString>, j: int, n: int)
    requires 0 <= j < n <= |s|
    requires NonDescendingIn(s, 0, j) && NonDescendingIn(s, j, n)
    requires j > 0 ==> !Below(s[j], s[j - 1])
    ensures NonDescendingIn(s, 0, n)
  {
  }
}
