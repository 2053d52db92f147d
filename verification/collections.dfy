/** Generic sequence operations the dashboard's table code is built from:
    boolean-mask filtering, sorting by a numeric column, minimum and maximum. */
module Collections {

  /** Optional value; `None` stands for a missing value such as pandas' NaN. */
  datatype Option<+T> = None | Some(value: T)

  /** Applies `f` to every element, as a pandas column expression does. */
  function Map<T, U>(s: seq<T>, f: T -> U): (r: seq<U>)
    ensures |r| == |s|
    ensures forall i :: 0 <= i < |s| ==> r[i] == f(s[i])
  {
    seq(|s|, i requires 0 <= i < |s| => f(s[i]))
  }

  /** No element occurs twice. */
  predicate Distinct<T(==)>(s: seq<T>) {
    forall i, j :: 0 <= i < j < |s| ==> s[i] != s[j]
  }

  /** `a` is `b` with some elements deleted and the rest kept in order. */
  ghost predicate Subsequence<T>(a: seq<T>, b: seq<T>)
    decreases |b|
  {
    if |a| == 0 then true
    else if |b| == 0 then false
    else (a[0] == b[0] && Subsequence(a[1..], b[1..])) || Subsequence(a, b[1..])
  }

  /** Keeps the elements satisfying `p`, in their original order, as a
      boolean mask `df[mask]` or a list comprehension with a condition does. */
  function Filter<T(!new)>(s: seq<T>, p: T -> bool): (r: seq<T>)
    ensures Subsequence(r, s)
    ensures forall x :: multiset(r)[x] == if p(x) then multiset(s)[x] else 0
    ensures forall x :: x in r <==> x in s && p(x)
    ensures |r| <= |s|
  {
    if |s| == 0 then []
    else
      var rest := Filter(s[1..], p);
      assert s == [s[0]] + s[1..];
      if p(s[0]) then
        assert ([s[0]] + rest)[1..] == rest;
        [s[0]] + rest
      else
        rest
  }

  /** An image of a filtered sequence holds exactly the images of the
      elements that pass the test. */
  lemma MapFilterMembers<T(!new), U>(s: seq<T>, p: T -> bool, f: T -> U, y: U)
    ensures y in Map(Filter(s, p), f) <==> exists i :: 0 <= i < |s| && p(s[i]) && y == f(s[i])
  {
    var kept := Filter(s, p);
    if y in Map(kept, f) {
      var j :| 0 <= j < |kept| && Map(kept, f)[j] == y;
      assert kept[j] in s;
    }
    if exists i :: 0 <= i < |s| && p(s[i]) && y == f(s[i]) {
      var i :| 0 <= i < |s| && p(s[i]) && y == f(s[i]);
      assert s[i] in kept;
      var j :| 0 <= j < |kept| && kept[j] == s[i];
      assert Map(kept, f)[j] == y;
    }
  }

  /** Filtering distributes over concatenation. */
  lemma {:induction false} FilterAppend<T(!new)>(a: seq<T>, b: seq<T>, p: T -> bool)
    ensures Filter(a + b, p) == Filter(a, p) + Filter(b, p)
    decreases |a|
  {
    if |a| == 0 {
      assert a + b == b;
    } else {
      assert (a + b)[0] == a[0] && (a + b)[1..] == a[1..] + b;
      FilterAppend(a[1..], b, p);
    }
  }

  /** Filtering with a test every element passes changes nothing. */
  lemma {:induction false} FilterKeepsAll<T(!new)>(s: seq<T>, p: T -> bool)
    requires forall x :: x in s ==> p(x)
    ensures Filter(s, p) == s
    decreases |s|
  {
    if |s| > 0 {
      var rest := s[1..];
      assert s == [s[0]] + rest;
      assert p(s[0]) && forall x :: x in rest ==> x in s;
      FilterKeepsAll(rest, p);
      assert Filter(s, p) == [s[0]] + Filter(rest, p);
    }
  }

  /** Filtering with a test no element passes leaves nothing. */
  lemma {:induction false} FilterDropsAll<T(!new)>(s: seq<T>, p: T -> bool)
    requires forall x :: x in s ==> !p(x)
    ensures Filter(s, p) == []
    decreases |s|
  {
    if |s| > 0 {
      assert forall x :: x in s[1..] ==> x in s;
      FilterDropsAll(s[1..], p);
    }
  }

  /** Filtering keeps a sequence free of repetitions. */
  lemma {:induction false} FilterDistinct<T(!new)>(s: seq<T>, p: T -> bool)
    requires Distinct(s)
    ensures Distinct(Filter(s, p))
    decreases |s|
  {
    if |s| > 0 {
      var rest := s[1..];
      DistinctTail(s);
      FilterDistinct(rest, p);
      if p(s[0]) {
        var r := Filter(rest, p);
        var all := [s[0]] + r;
        forall a, b | 0 <= a < b < |all| ensures all[a] != all[b] {
          assert all[b] == r[b - 1] && all[b] in rest;
          if a > 0 {
            assert all[a] == r[a - 1];
          }
        }
      }
    }
  }

  /** The sequence is ordered from the largest `key` to the smallest. */
  predicate NonIncreasing<T>(s: seq<T>, key: T -> real) {
    forall i, j :: 0 <= i < j < |s| ==> key(s[i]) >= key(s[j])
  }

  /** Inserts `x` into a non-increasing sequence, keeping it non-increasing. */
  function InsertDesc<T>(s: seq<T>, x: T, key: T -> real): (r: seq<T>)
    requires NonIncreasing(s, key)
    ensures |r| == |s| + 1
    ensures r[0] == x || (|s| > 0 && r[0] == s[0])
    ensures NonIncreasing(r, key)
    ensures multiset(r) == multiset(s) + multiset{x}
  {
    if |s| == 0 || key(x) >= key(s[0]) then
      [x] + s
    else
      var rest := InsertDesc(s[1..], x, key);
      InsertBehindHead(s, x, key, rest);
      [s[0]] + rest
  }

  /** Putting the head of `s` in front of a non-increasing arrangement of
      the rest of `s` and `x`, where `x` sorts after the head, is again
      non-increasing and holds `s` and `x`. */
  lemma InsertBehindHead<T>(s: seq<T>, x: T, key: T -> real, rest: seq<T>)
    requires NonIncreasing(s, key) && |s| > 0 && key(x) < key(s[0])
    requires NonIncreasing(rest, key) && multiset(rest) == multiset(s[1..]) + multiset{x}
    ensures NonIncreasing([s[0]] + rest, key)
    ensures multiset([s[0]] + rest) == multiset(s) + multiset{x}
  {
    var tail := s[1..];
    assert s == [s[0]] + tail;
    forall k | 0 <= k < |rest| ensures key(s[0]) >= key(rest[k]) {
      assert rest[k] in multiset(tail) + multiset{x};
    }
    var r := [s[0]] + rest;
    assert forall k :: 1 <= k < |r| ==> r[k] == rest[k - 1];
  }

  /** Sorts by `key`, largest first (a `sort_values(..., ascending=False)`).
      The contract leaves the order among equal keys open; the sort keeps
      them in input order (`SortDescStable`), as `nlargest` needs. */
  function SortDesc<T>(s: seq<T>, key: T -> real): (r: seq<T>)
    ensures NonIncreasing(r, key)
    ensures multiset(r) == multiset(s)
    ensures |r| == |s|
  {
    if |s| == 0 then []
    else
      assert s == [s[0]] + s[1..];
      InsertDesc(SortDesc(s[1..], key), s[0], key)
  }

  /** `r` is `t` with `x` inserted at position `p`. */
  ghost predicate InsertedAt<T>(r: seq<T>, t: seq<T>, x: T, p: nat) {
    && p <= |t| && |r| == |t| + 1 && r[p] == x
    && (forall k :: 0 <= k < p ==> r[k] == t[k])
    && (forall k :: p < k < |r| ==> r[k] == t[k - 1])
  }

  /** `InsertDesc` places `x` at some position `p`, just behind an element
      with a strictly larger key. */
  lemma {:induction false} InsertDescAt<T>(s: seq<T>, x: T, key: T -> real) returns (p: nat)
    requires NonIncreasing(s, key)
    ensures InsertedAt(InsertDesc(s, x, key), s, x, p)
    ensures 0 < p ==> key(s[p - 1]) > key(x)
    decreases |s|
  {
    var r := InsertDesc(s, x, key);
    if |s| == 0 || key(x) >= key(s[0]) {
      p := 0;
      assert r == [x] + s;
      assert forall k :: 0 < k < |r| ==> r[k] == s[k - 1];
    } else {
      var tail := s[1..];
      assert NonIncreasing(tail, key);
      var q := InsertDescAt(tail, x, key);
      var r' := InsertDesc(tail, x, key);
      assert r == [s[0]] + r';
      p := q + 1;
      forall k | 0 < k < |r| ensures r[k] == r'[k - 1] {
      }
      forall k | 0 < k < p ensures r[k] == s[k] {
        assert r'[k - 1] == tail[k - 1];
      }
      forall k | p < k < |r| ensures r[k] == s[k - 1] {
        assert r'[k - 1] == tail[k - 2];
      }
      assert s[p - 1] == if q == 0 then s[0] else tail[q - 1];
    }
  }

  /** In a non-increasing sequence, everything ahead of an element with a
      larger key than `x` also has a larger key than `x`. */
  lemma AheadIsLarger<T>(s: seq<T>, x: T, key: T -> real, p: nat)
    requires NonIncreasing(s, key) && p <= |s|
    requires 0 < p ==> key(s[p - 1]) > key(x)
    ensures forall i :: 0 <= i < p ==> key(s[i]) > key(x)
  {
  }

  /** `r` orders the elements of `s` stably: of two elements of `s` with
      equal keys, the earlier one in `s` comes earlier in `r`. */
  ghost predicate Stable<T>(s: seq<T>, r: seq<T>, key: T -> real) {
    forall a, b, i, j ::
      (0 <= a < b < |s| && 0 <= i < |r| && 0 <= j < |r| && r[i] == s[a] && r[j] == s[b] && key(s[a]) == key(s[b]))
      ==> i < j
  }

  /** `SortDesc(s)` is the sorted tail with the head of `s` inserted behind
      exactly the elements with a larger key. */
  lemma SortDescHeadAt<T>(s: seq<T>, key: T -> real) returns (p: nat)
    requires |s| > 0
    ensures InsertedAt(SortDesc(s, key), SortDesc(s[1..], key), s[0], p)
    ensures forall k :: 0 <= k < p ==> key(SortDesc(s[1..], key)[k]) > key(s[0])
  {
    var t := SortDesc(s[1..], key);
    assert SortDesc(s, key) == InsertDesc(t, s[0], key);
    p := InsertDescAt(t, s[0], key);
    AheadIsLarger(t, s[0], key, p);
  }

  /** Sorting keeps exactly the elements of the input. */
  lemma SortDescMembers<T>(s: seq<T>, key: T -> real, x: T)
    ensures x in SortDesc(s, key) <==> x in s
  {
    assert x in SortDesc(s, key) <==> x in multiset(SortDesc(s, key));
  }

  /** Inserting the head of `s` behind exactly the larger keys of a stable
      order of the tail gives a stable order of `s`. */
  lemma StableInsert<T>(s: seq<T>, t: seq<T>, r: seq<T>, p: nat, key: T -> real)
    requires Distinct(s) && |s| > 0 && s[0] !in t
    requires InsertedAt(r, t, s[0], p) && forall k :: 0 <= k < p ==> key(t[k]) > key(s[0])
    requires Stable(s[1..], t, key)
    ensures Stable(s, r, key)
  {
    var tail := s[1..];
    forall a, b, i, j | 0 <= a < b < |s| && 0 <= i < |r| && 0 <= j < |r| && r[i] == s[a] && r[j] == s[b]
                        && key(s[a]) == key(s[b])
      ensures i < j
    {
      assert s[b] == tail[b - 1] && s[b] != s[0];
      if a > 0 {
        assert s[a] == tail[a - 1] && s[a] != s[0];
        var i' := if i < p then i else i - 1;
        var j' := if j < p then j else j - 1;
        assert t[i'] == tail[a - 1] && t[j'] == tail[b - 1];
      }
    }
  }

  /** `SortDesc` is stable: of two elements with equal keys, the one that
      comes first in the input comes first in the output. */
  lemma {:induction false} SortDescStable<T>(s: seq<T>, key: T -> real)
    requires Distinct(s)
    ensures Stable(s, SortDesc(s, key), key)
    decreases |s|
  {
    if |s| > 0 {
      var tail := s[1..];
      DistinctTail(s);
      SortDescStable(tail, key);
      SortDescMembers(tail, key, s[0]);
      var p := SortDescHeadAt(s, key);
      StableInsert(s, SortDesc(tail, key), SortDesc(s, key), p, key);
    }
  }

  /** In a stable order, a prefix that holds the later of two elements
      with equal keys holds the earlier one as well. */
  lemma StablePrefix<T>(s: seq<T>, r: seq<T>, key: T -> real, a: nat, b: nat, m: nat)
    requires Stable(s, r, key) && a < b < |s| && key(s[a]) == key(s[b]) && s[a] in r
    requires m <= |r| && s[b] in r[..m]
    ensures s[a] in r[..m]
  {
    var j :| 0 <= j < m && r[..m][j] == s[b];
    var i :| 0 <= i < |r| && r[i] == s[a];
    assert r[j] == s[b];
    assert i < j;
    assert r[..m][i] == s[a];
  }

  /** A prefix of a stable order is again stable. */
  lemma StableTake<T>(s: seq<T>, r: seq<T>, key: T -> real, m: nat)
    requires Stable(s, r, key) && m <= |r|
    ensures Stable(s, r[..m], key)
  {
    assert forall i :: 0 <= i < m ==> r[..m][i] == r[i];
  }

  /** Hence `SortDesc` keeps ties in input order: of two elements with
      equal keys, a prefix of the sorted sequence that holds the later one
      holds the earlier one as well. */
  lemma SortDescKeepsFirst<T>(s: seq<T>, key: T -> real, a: nat, b: nat, m: nat)
    requires Distinct(s) && a < b < |s| && key(s[a]) == key(s[b])
    requires m <= |s| && s[b] in SortDesc(s, key)[..m]
    ensures s[a] in SortDesc(s, key)[..m]
  {
    SortDescStable(s, key);
    SortDescMembers(s, key, s[a]);
    StablePrefix(s, SortDesc(s, key), key, a, b, m);
  }

  /** The first `m` elements of a non-increasing sequence are non-increasing,
      are drawn from it, and have keys no smaller than any element left out. */
  lemma PrefixDominates<T>(s: seq<T>, key: T -> real, m: nat)
    requires NonIncreasing(s, key) && m <= |s|
    ensures NonIncreasing(s[..m], key)
    ensures multiset(s[..m]) <= multiset(s)
    ensures forall x, z :: x in multiset(s) - multiset(s[..m]) && z in s[..m] ==> key(x) <= key(z)
  {
    assert s == s[..m] + s[m..];
    assert multiset(s) == multiset(s[..m]) + multiset(s[m..]);
    forall x, z | x in multiset(s) - multiset(s[..m]) && z in s[..m] ensures key(x) <= key(z) {
      assert x in s[m..];
      var b :| 0 <= b < |s[m..]| && s[m..][b] == x;
      var a :| 0 <= a < m && s[..m][a] == z;
      assert s[a] == z && s[m + b] == x;
    }
  }

  /** Smallest element of a non-empty sequence (pandas `min`). */
  function MinOf(s: seq<int>): (m: int)
    requires |s| > 0
    ensures m in s
    ensures forall x :: x in s ==> m <= x
  {
    if |s| == 1 then s[0]
    else
      var rest := MinOf(s[1..]);
      assert s == [s[0]] + s[1..];
      if s[0] <= rest then s[0] else rest
  }

  /** Largest element of a non-empty sequence (pandas `max`). */
  function MaxOf(s: seq<int>): (m: int)
    requires |s| > 0
    ensures m in s
    ensures forall x :: x in s ==> x <= m
  {
    if |s| == 1 then s[0]
    else
      var rest := MaxOf(s[1..]);
      assert s == [s[0]] + s[1..];
      if s[0] >= rest then s[0] else rest
  }

  /** A sequence without repetitions has as many elements as its set. */
  lemma {:induction false} DistinctCardinality<T>(s: seq<T>)
    requires Distinct(s)
    ensures |set x | x in s| == |s|
  {
    if |s| > 0 {
      var rest := s[1..];
      DistinctTail(s);
      DistinctCardinality(rest);
      assert (set x | x in s) == {s[0]} + (set x | x in rest) by {
        assert s == [s[0]] + rest;
      }
    }
  }

  /** Dropping the first element of a repetition-free sequence leaves one
      without repetitions that no longer holds that element. */
  lemma DistinctTail<T>(s: seq<T>)
    requires |s| > 0 && Distinct(s)
    ensures Distinct(s[1..]) && s[0] !in s[1..]
  {
    var rest := s[1..];
    forall a, b | 0 <= a < b < |rest| ensures rest[a] != rest[b] {
      assert rest[a] == s[a + 1] && rest[b] == s[b + 1];
    }
    forall a | 0 <= a < |rest| ensures rest[a] != s[0] {
      assert rest[a] == s[a + 1];
    }
  }

  /** Two repetition-free sequences with the same elements have the same length. */
  lemma SameElementsSameLength<T>(a: seq<T>, b: seq<T>)
    requires Distinct(a) && Distinct(b)
    requires forall x :: x in a <==> x in b
    ensures |a| == |b|
  {
    DistinctCardinality(a);
    DistinctCardinality(b);
    assert (set x | x in a) == (set x | x in b);
  }
}
