/** Orders on group keys and the sorted, duplicate-free key lists that
    pandas builds for `groupby` (sorted group keys) and `sorted(unique())`. */
module Ordering {
  import opened Collections

  /** Lexicographic order on strings by code point, as Python compares `str`. */
  predicate StrLess(a: string, b: string)
    decreases |a|
  {
    |b| > 0 && (|a| == 0 || a[0] < b[0] || (a[0] == b[0] && StrLess(a[1..], b[1..])))
  }

  lemma {:induction false} StrLessIrreflexive(a: string)
    ensures !StrLess(a, a)
    decreases |a|
  {
    if |a| > 0 {
      StrLessIrreflexive(a[1..]);
    }
  }

  lemma {:induction false} StrLessTransitive(a: string, b: string, c: string)
    requires StrLess(a, b) && StrLess(b, c)
    ensures StrLess(a, c)
    decreases |a|
  {
    if |a| > 0 && a[0] == b[0] && b[0] == c[0] {
      StrLessTransitive(a[1..], b[1..], c[1..]);
    }
  }

  lemma {:induction false} StrLessTotal(a: string, b: string)
    requires a != b
    ensures StrLess(a, b) || StrLess(b, a)
    decreases |a|
  {
    if |a| > 0 && |b| > 0 && a[0] == b[0] {
      assert a == [a[0]] + a[1..] && b == [b[0]] + b[1..];
      StrLessTotal(a[1..], b[1..]);
    }
  }

  /** `less` is irreflexive, transitive and relates any two distinct keys. */
  ghost predicate StrictTotalOrder<K(!new)>(less: (K, K) -> bool) {
    && (forall a :: !less(a, a))
    && (forall a, b, c :: less(a, b) && less(b, c) ==> less(a, c))
    && (forall a, b :: a != b ==> less(a, b) || less(b, a))
  }

  /** Strictly ascending, hence without repetitions. */
  predicate StrictlySorted<K>(s: seq<K>, less: (K, K) -> bool) {
    forall i, j :: 0 <= i < j < |s| ==> less(s[i], s[j])
  }

  lemma StrictlySortedIsDistinct<K(!new)>(s: seq<K>, less: (K, K) -> bool)
    requires StrictTotalOrder(less)
    requires StrictlySorted(s, less)
    ensures Distinct(s)
  {
  }

  /** Adds `k` to a strictly sorted key list unless it is already there. */
  function InsertKey<K(==,!new)>(s: seq<K>, k: K, less: (K, K) -> bool): (r: seq<K>)
    requires StrictTotalOrder(less)
    requires StrictlySorted(s, less)
    ensures StrictlySorted(r, less)
    ensures forall x :: x in r <==> x in s || x == k
  {
    if |s| == 0 then [k]
    else if k == s[0] then s
    else if less(k, s[0]) then [k] + s
    else
      assert s == [s[0]] + s[1..];
      var rest := InsertKey(s[1..], k, less);
      assert less(s[0], k);
      assert forall x :: x in rest ==> less(s[0], x);
      [s[0]] + rest
  }

  /** The distinct keys of `ks` in ascending order: the group keys of a
      sorted `groupby`, or `sorted(column.unique())`. */
  function SortedKeys<K(==,!new)>(ks: seq<K>, less: (K, K) -> bool): (r: seq<K>)
    requires StrictTotalOrder(less)
    ensures StrictlySorted(r, less)
    ensures forall x :: x in r <==> x in ks
  {
    if |ks| == 0 then []
    else
      assert ks == [ks[0]] + ks[1..];
      InsertKey(SortedKeys(ks[1..], less), ks[0], less)
  }

  /** A strictly sorted list is determined by its elements: two with the
      same elements are the same list. */
  lemma {:induction false} StrictlySortedUnique<K(!new)>(a: seq<K>, b: seq<K>, less: (K, K) -> bool)
    requires StrictTotalOrder(less)
    requires StrictlySorted(a, less) && StrictlySorted(b, less)
    requires forall x :: x in a <==> x in b
    ensures a == b
    decreases |a|
  {
    if |a| == 0 {
      if |b| > 0 {
        HeadIsMember(b);
        assert false;
      }
    } else {
      assert a[0] in b;
      assert |b| > 0;
      assert b[0] in a;
      var i :| 0 <= i < |a| && a[i] == b[0];
      var j :| 0 <= j < |b| && b[j] == a[0];
      if i > 0 && j > 0 {
        assert false;
      }
      assert a[0] == b[0];
      var ta, tb := a[1..], b[1..];
      forall x ensures x in ta <==> x in tb {
        if x in ta {
          var p :| 0 <= p < |ta| && ta[p] == x;
          assert less(a[0], a[p + 1]);
          assert x in b && x != b[0];
        }
        if x in tb {
          var q :| 0 <= q < |tb| && tb[q] == x;
          assert less(b[0], b[q + 1]);
          assert x in a && x != a[0];
        }
      }
      StrictlySortedUnique(ta, tb, less);
      assert a == [a[0]] + ta && b == [b[0]] + tb;
    }
  }

  lemma HeadIsMember<K>(s: seq<K>)
    requires |s| > 0
    ensures s[0] in s
  {
  }

  /** Numeric order of years. */
  predicate IntLess(a: int, b: int) {
    a < b
  }

  lemma IntLessIsStrictTotal()
    ensures StrictTotalOrder(IntLess)
  {
  }

  lemma StrLessIsStrictTotal()
    ensures StrictTotalOrder(StrLess)
  {
    forall a ensures !StrLess(a, a) {
      StrLessIrreflexive(a);
    }
    forall a, b, c | StrLess(a, b) && StrLess(b, c) ensures StrLess(a, c) {
      StrLessTransitive(a, b, c);
    }
    forall a, b | a != b ensures StrLess(a, b) || StrLess(b, a) {
      StrLessTotal(a, b);
    }
  }

  /** Order of a two-string key such as (Country, Region). */
  predicate PairLess(a: (string, string), b: (string, string)) {
    StrLess(a.0, b.0) || (a.0 == b.0 && StrLess(a.1, b.1))
  }

  lemma PairLessIsStrictTotal()
    ensures StrictTotalOrder(PairLess)
  {
    forall a: (string, string) ensures !PairLess(a, a) {
      StrLessIrreflexive(a.0);
      StrLessIrreflexive(a.1);
    }
    forall a: (string, string), b: (string, string), c: (string, string) | PairLess(a, b) && PairLess(b, c)
      ensures PairLess(a, c)
    {
      if StrLess(a.0, b.0) && StrLess(b.0, c.0) {
        StrLessTransitive(a.0, b.0, c.0);
      } else if a.0 == b.0 && b.0 == c.0 {
        StrLessTransitive(a.1, b.1, c.1);
      }
    }
    forall a: (string, string), b: (string, string) | a != b ensures PairLess(a, b) || PairLess(b, a) {
      if a.0 != b.0 {
        StrLessTotal(a.0, b.0);
      } else {
        StrLessTotal(a.1, b.1);
      }
    }
  }

  /** Keys strictly sorted by `PairLess` are pairwise distinct. */
  lemma PairSortedIsDistinct(keys: seq<(string, string)>)
    requires StrictlySorted(keys, PairLess)
    ensures Distinct(keys)
  {
    PairLessIsStrictTotal();
    StrictlySortedIsDistinct(keys, PairLess);
  }

  /** Order of a (string, year) key such as (Region, Year). */
  predicate NameYearLess(a: (string, int), b: (string, int)) {
    StrLess(a.0, b.0) || (a.0 == b.0 && a.1 < b.1)
  }

  lemma NameYearLessIsStrictTotal()
    ensures StrictTotalOrder(NameYearLess)
  {
    forall a: (string, int) ensures !NameYearLess(a, a) {
      StrLessIrreflexive(a.0);
    }
    forall a: (string, int), b: (string, int), c: (string, int) | NameYearLess(a, b) && NameYearLess(b, c)
      ensures NameYearLess(a, c)
    {
      if StrLess(a.0, b.0) && StrLess(b.0, c.0) {
        StrLessTransitive(a.0, b.0, c.0);
      }
    }
    forall a: (string, int), b: (string, int) | a != b ensures NameYearLess(a, b) || NameYearLess(b, a) {
      if a.0 != b.0 {
        StrLessTotal(a.0, b.0);
      }
    }
  }
}
