/**
 * Connector instances are keyed by name and ordered the way
 * java.lang.String.compareTo orders strings. The detector keeps its key sets
 * as strictly ascending sequences.
 */
module ConnectorNames {

  /** A connector instance is identified by its name alone. */
  type Key = string

  /**
   * The shape of java.lang.String.compareTo: the difference of the first pair
   * of differing characters, or, when one name is a prefix of the other, the
   * difference of the lengths. Characters here are code points, where Java
   * compares UTF-16 code units.
   */
  function CompareNames(a: Key, b: Key): int
    decreases |a|
  {
    if |a| == 0 || |b| == 0 then |a| - |b|
    else if a[0] != b[0] then a[0] as int - b[0] as int
    else CompareNames(a[1..], b[1..])
  }

  predicate Less(a: Key, b: Key) {
    CompareNames(a, b) < 0
  }

  /** The comparison reports equality exactly for equal names. */
  lemma {:induction false} CompareNamesZero(a: Key, b: Key)
    ensures CompareNames(a, b) == 0 <==> a == b
    decreases |a|
  {
    if |a| > 0 && |b| > 0 && a[0] == b[0] {
      CompareNamesZero(a[1..], b[1..]);
      assert a == [a[0]] + a[1..];
      assert b == [b[0]] + b[1..];
    }
  }

  /** Swapping the names negates the comparison. */
  lemma {:induction false} CompareNamesAntisymmetric(a: Key, b: Key)
    ensures CompareNames(a, b) == -CompareNames(b, a)
    decreases |a|
  {
    if |a| > 0 && |b| > 0 && a[0] == b[0] {
      CompareNamesAntisymmetric(a[1..], b[1..]);
    }
  }

  /** The order on names is transitive. */
  lemma {:induction false} LessTransitive(a: Key, b: Key, c: Key)
    requires Less(a, b) && Less(b, c)
    ensures Less(a, c)
    decreases |a|
  {
    if |a| > 0 && |b| > 0 && |c| > 0 && a[0] == b[0] && b[0] == c[0] {
      LessTransitive(a[1..], b[1..], c[1..]);
    }
  }

  /** Two distinct names are ordered one way or the other. */
  lemma LessTotal(a: Key, b: Key)
    requires a != b
    ensures Less(a, b) || Less(b, a)
  {
    CompareNamesZero(a, b);
    CompareNamesAntisymmetric(a, b);
  }

  lemma LessIrreflexive(a: Key)
    ensures !Less(a, a)
  {
    CompareNamesZero(a, a);
  }

  /** Strictly ascending, hence free of duplicates. */
  predicate Sorted(s: seq<Key>) {
    forall i, j :: 0 <= i < j < |s| ==> Less(s[i], s[j])
  }

  function Elems(s: seq<Key>): set<Key> {
    set k | k in s
  }

  /** `x` sorts strictly below every name of `s`. */
  predicate Below(x: Key, s: seq<Key>) {
    forall y | y in s :: Less(x, y)
  }

  lemma BelowNotIn(x: Key, s: seq<Key>)
    requires Below(x, s)
    ensures x !in s
  {
    LessIrreflexive(x);
  }

  /** The head of a sorted sequence sorts below its tail. */
  lemma SortedHead(s: seq<Key>)
    requires Sorted(s) && s != []
    ensures Below(s[0], s[1..]) && Sorted(s[1..])
  {
    forall y | y in s[1..] ensures Less(s[0], y) {
      var t :| 0 <= t < |s[1..]| && s[1..][t] == y;
      assert s[t + 1] == y;
    }
  }

  /** An element of a sorted sequence does not occur before its own position. */
  lemma SortedNotBefore(s: seq<Key>, j: int)
    requires Sorted(s) && 0 <= j < |s|
    ensures s[j] !in s[..j]
  {
    LessIrreflexive(s[j]);
    forall t | 0 <= t < j ensures s[..j][t] != s[j] {
      assert Less(s[t], s[j]);
    }
  }

  /**
   * Walking a sorted sequence, the element at the cursor is not among the keys
   * collected from before it, and collecting it or not stays within the
   * elements up to and including it.
   */
  lemma FreshAtCursor(s: seq<Key>, j: int, keys: set<Key>)
    requires Sorted(s) && 0 <= j < |s|
    requires keys <= Elems(s[..j])
    ensures s[j] !in keys
    ensures keys + {s[j]} <= Elems(s[..j + 1])
  {
    SortedNotBefore(s, j);
    assert s[..j + 1] == s[..j] + [s[j]];
  }

  /** A name below the head of a sorted sequence is below all of it. */
  lemma BelowSorted(x: Key, s: seq<Key>)
    requires Sorted(s) && s != [] && Less(x, s[0])
    ensures Below(x, s)
  {
    forall y | y in s ensures Less(x, y) {
      var t :| 0 <= t < |s| && s[t] == y;
      if t > 0 {
        LessTransitive(x, s[0], s[t]);
      }
    }
  }

  /**
   * Inserts a new name into a sorted sequence at its place, as a TreeSet
   * insertion does.
   */
  method Insert(s: seq<Key>, x: Key) returns (r: seq<Key>)
    requires Sorted(s) && x !in s
    ensures Sorted(r) && Elems(r) == Elems(s) + {x}
    ensures |r| == |s| + 1
  {
    var i := 0;
    while i < |s| && Less(s[i], x)
      invariant 0 <= i <= |s|
      invariant forall k :: 0 <= k < i ==> Less(s[k], x)
    {
      i := i + 1;
    }
    if i < |s| {
      // s[i] is not below x and differs from it, so x is below s[i].
      LessTotal(s[i], x);
      BelowSorted(x, s[i..]);
    }
    r := s[..i] + [x] + s[i..];
    forall a, b | 0 <= a < b < |r| ensures Less(r[a], r[b]) {
      if b < i {
        assert r[a] == s[a] && r[b] == s[b];
      } else if b == i {
        assert r[a] == s[a] && r[b] == x;
      } else if a == i {
        assert r[b] == s[b - 1] && r[b] in s[i..];
      } else if a < i {
        assert r[a] == s[a] && r[b] == s[b - 1];
      } else {
        assert r[a] == s[a - 1] && r[b] == s[b - 1];
      }
    }
    assert s == s[..i] + s[i..];
  }

  /**
   * The keys of a snapshot in ascending order: the TreeSet the detector builds
   * from the snapshot's key set.
   */
  method SortedKeys(keys: set<Key>) returns (r: seq<Key>)
    ensures Sorted(r) && Elems(r) == keys
    ensures |r| == |keys|
  {
    r := [];
    var rest := keys;
    while rest != {}
      invariant Sorted(r)
      invariant Elems(r) + rest == keys
      invariant Elems(r) !! rest
      invariant |r| + |rest| == |keys|
      decreases |rest|
    {
      var x :| x in rest;
      r := Insert(r, x);
      rest := rest - {x};
    }
  }
}
