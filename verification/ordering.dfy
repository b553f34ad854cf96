/**
  The order in which a pandas `groupby` (with its default `sort=True`) lists
  its groups: the distinct keys, sorted by a strict total order on the key
  columns. Strings compare as Python compares them, by code point.
 */
module Ordering {

  /** `less` is irreflexive, transitive and relates any two distinct values. */
  ghost predicate StrictTotalOrder<K(!new)>(less: (K, K) -> bool)
  {
    && (forall a :: !less(a, a))
    && (forall a, b, c :: less(a, b) && less(b, c) ==> less(a, c))
    && (forall a, b :: a != b ==> less(a, b) || less(b, a))
  }

  predicate StrictlySorted<K>(s: seq<K>, less: (K, K) -> bool)
  {
    forall i, j :: 0 <= i < j < |s| ==> less(s[i], s[j])
  }

  predicate Distinct<K(==)>(s: seq<K>)
  {
    forall i, j :: 0 <= i < j < |s| ==> s[i] != s[j]
  }

  /** Python's `<` on `str`: lexicographic by code point, a proper prefix first. */
  predicate StrLess(a: string, b: string)
  {
    if |a| == 0 then |b| > 0
    else if |b| == 0 then false
    else if a[0] != b[0] then a[0] < b[0]
    else StrLess(a[1..], b[1..])
  }

  lemma {:induction false} StrLessIrreflexive(a: string)
    ensures !StrLess(a, a)
  {
    if |a| > 0 {
      StrLessIrreflexive(a[1..]);
    }
  }

  lemma {:induction false} StrLessTransitive(a: string, b: string, c: string)
    requires StrLess(a, b) && StrLess(b, c)
    ensures StrLess(a, c)
  {
    if |a| > 0 && a[0] == b[0] && b[0] == c[0] {
      StrLessTransitive(a[1..], b[1..], c[1..]);
    }
  }

  lemma {:induction false} StrLessTotal(a: string, b: string)
    requires a != b
    ensures StrLess(a, b) || StrLess(b, a)
  {
    if |a| > 0 && |b| > 0 && a[0] == b[0] {
      assert a == [a[0]] + a[1..] && b == [b[0]] + b[1..];
      StrLessTotal(a[1..], b[1..]);
    }
  }

  /** Python's string order is a strict total order. */
  lemma StrLessIsStrictTotalOrder()
    ensures StrictTotalOrder(StrLess)
  {
    forall a: string ensures !StrLess(a, a) {
      StrLessIrreflexive(a);
    }
    forall a: string, b: string, c: string | StrLess(a, b) && StrLess(b, c)
      ensures StrLess(a, c)
    {
      StrLessTransitive(a, b, c);
    }
    forall a: string, b: string | a != b
      ensures StrLess(a, b) || StrLess(b, a)
    {
      StrLessTotal(a, b);
    }
  }

  /** Adds key `k` to a key list unless it is already there. */
  function Insert<K(==,!new)>(s: seq<K>, k: K, less: (K, K) -> bool): (r: seq<K>)
    ensures forall x :: x in r <==> x in s || x == k
  {
    if s == [] then [k]
    else if s[0] == k then s
    else if less(k, s[0]) then [k] + s
    else [s[0]] + Insert(s[1..], k, less)
  }

  /** The keys of a group-by, each once, in the order of `less`. */
  function SortedDistinct<K(==,!new)>(ks: seq<K>, less: (K, K) -> bool): (r: seq<K>)
    ensures forall x :: x in r <==> x in ks
  {
    if ks == [] then [] else Insert(SortedDistinct(ks[1..], less), ks[0], less)
  }

  lemma {:induction false} InsertKeepsSorted<K(!new)>(s: seq<K>, k: K, less: (K, K) -> bool)
    requires StrictTotalOrder(less) && StrictlySorted(s, less)
    ensures StrictlySorted(Insert(s, k, less), less)
  {
    if s != [] && s[0] != k && !less(k, s[0]) {
      assert less(s[0], k);
      var tail := s[1..];
      assert StrictlySorted(tail, less);
      InsertKeepsSorted(tail, k, less);
      var r := Insert(tail, k, less);
      forall x | x in r ensures less(s[0], x) {
        if x != k {
          var j :| 0 <= j < |tail| && tail[j] == x;
          assert s[j + 1] == x;
        }
      }
      var out := [s[0]] + r;
      forall i, j | 0 <= i < j < |out| ensures less(out[i], out[j]) {
        if i > 0 {
          assert out[i] == r[i - 1] && out[j] == r[j - 1];
        } else {
          assert out[j] == r[j - 1] && out[j] in r;
        }
      }
    }
  }

  /** The keys come out strictly sorted, hence each exactly once. */
  lemma {:induction false} SortedDistinctIsSorted<K(!new)>(ks: seq<K>, less: (K, K) -> bool)
    requires StrictTotalOrder(less)
    ensures StrictlySorted(SortedDistinct(ks, less), less)
  {
    if ks != [] {
      SortedDistinctIsSorted(ks[1..], less);
      InsertKeepsSorted(SortedDistinct(ks[1..], less), ks[0], less);
    }
  }

  lemma SortedIsDistinct<K(!new)>(s: seq<K>, less: (K, K) -> bool)
    requires StrictTotalOrder(less) && StrictlySorted(s, less)
    ensures Distinct(s)
  {
  }

  /** The head of a strictly sorted list is below every other element. */
  lemma SortedHeadIsLeast<K(!new)>(s: seq<K>, less: (K, K) -> bool)
    requires StrictTotalOrder(less) && StrictlySorted(s, less) && s != []
    ensures forall x :: x in s ==> !less(x, s[0])
    ensures forall x :: x in s[1..] ==> less(s[0], x)
  {
    forall x | x in s ensures !less(x, s[0]) {
      var i :| 0 <= i < |s| && s[i] == x;
      if i > 0 {
        assert less(s[0], x);
      }
    }
  }

  /** A strictly sorted list is determined by its elements: whichever way a
      group-by meets its keys, it lists the same groups in the same order. */
  lemma {:induction false} SortedUnique<K(!new)>(s: seq<K>, t: seq<K>, less: (K, K) -> bool)
    requires StrictTotalOrder(less) && StrictlySorted(s, less) && StrictlySorted(t, less)
    requires forall x :: x in s <==> x in t
    ensures s == t
  {
    assert |s| > 0 ==> s[0] in t;
    assert |t| > 0 ==> t[0] in s;
    if s != [] && t != [] {
      SortedHeadIsLeast(s, less);
      SortedHeadIsLeast(t, less);
      assert s[0] in t && t[0] in s;
      assert s[0] == t[0];
      forall x ensures x in s[1..] <==> x in t[1..] {
        if x in s[1..] {
          assert x in s && x != s[0];
          assert x in t;
          assert x == t[0] || x in t[1..] by { assert t == [t[0]] + t[1..]; }
        }
        if x in t[1..] {
          assert x in t && x != t[0];
          assert x in s;
          assert x == s[0] || x in s[1..] by { assert s == [s[0]] + s[1..]; }
        }
      }
      SortedUnique(s[1..], t[1..], less);
      assert s == [s[0]] + s[1..] && t == [t[0]] + t[1..];
    }
  }
}
