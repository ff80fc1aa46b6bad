/** Sequence operations shared by the data-cleaning and recommendation models:
    boolean-mask filtering, order-preserving subsequences, first occurrences
    by key (pandas `unique` and `drop_duplicates(keep='first')`), and sorting
    (the ordering pandas applies to group keys). */
module Seqs {

  datatype Option<T> = None | Some(value: T)

  // ---------------------------------------------------------------------------
  // Filtering and subsequences
  // ---------------------------------------------------------------------------

  /** The rows of `s` selected by the mask `p`, in their original order. */
  function Filter<T>(s: seq<T>, p: T -> bool): (r: seq<T>)
    ensures |r| <= |s|
    ensures forall i :: 0 <= i < |r| ==> p(r[i]) && r[i] in s
    decreases |s|
  {
    if s == [] then [] else (if p(s[0]) then [s[0]] else []) + Filter(s[1..], p)
  }

  /** `a` can be obtained from `b` by deleting elements (order is kept). */
  predicate IsSubseq<T(==)>(a: seq<T>, b: seq<T>)
    decreases |b|
  {
    a == [] || (b != [] && ((a[0] == b[0] && IsSubseq(a[1..], b[1..])) || IsSubseq(a, b[1..])))
  }

  /** A filter keeps every element satisfying the mask exactly as often as the
      input holds it, and no other element. */
  lemma {:induction false} FilterMultiset<T>(s: seq<T>, p: T -> bool, x: T)
    ensures multiset(Filter(s, p))[x] == if p(x) then multiset(s)[x] else 0
    decreases |s|
  {
    if s != [] {
      FilterMultiset(s[1..], p, x);
      assert s == [s[0]] + s[1..];
      assert multiset(s) == multiset([s[0]]) + multiset(s[1..]);
    }
  }

  /** Membership in a filter: both directions. */
  lemma FilterMember<T>(s: seq<T>, p: T -> bool, x: T)
    ensures x in Filter(s, p) <==> x in s && p(x)
  {
    FilterMultiset(s, p, x);
  }

  lemma {:induction false} FilterIsSubseq<T>(s: seq<T>, p: T -> bool)
    ensures IsSubseq(Filter(s, p), s)
    decreases |s|
  {
    if s != [] {
      FilterIsSubseq(s[1..], p);
      if p(s[0]) {
        assert Filter(s, p) == [s[0]] + Filter(s[1..], p);
        assert Filter(s, p)[1..] == Filter(s[1..], p);
      } else {
        assert Filter(s, p) == Filter(s[1..], p);
      }
    }
  }

  lemma {:induction false} SubseqTransitive<T>(a: seq<T>, b: seq<T>, c: seq<T>)
    requires IsSubseq(a, b) && IsSubseq(b, c)
    ensures IsSubseq(a, c)
    decreases |c|
  {
    if a != [] {
      if b[0] == c[0] && IsSubseq(b[1..], c[1..]) {
        if a[0] == b[0] && IsSubseq(a[1..], b[1..]) {
          SubseqTransitive(a[1..], b[1..], c[1..]);
        } else {
          SubseqTransitive(a, b[1..], c[1..]);
        }
      } else {
        SubseqTransitive(a, b, c[1..]);
      }
    }
  }

  /** Filtering a sequence whose keys are pairwise distinct keeps them distinct. */
  lemma {:induction false} FilterKeepsDistinctKeys<T, K>(s: seq<T>, p: T -> bool, key: T -> K)
    requires forall i, j :: 0 <= i < j < |s| ==> key(s[i]) != key(s[j])
    ensures forall i, j :: 0 <= i < j < |Filter(s, p)| ==> key(Filter(s, p)[i]) != key(Filter(s, p)[j])
    decreases |s|
  {
    if s != [] {
      var rest := Filter(s[1..], p);
      FilterKeepsDistinctKeys(s[1..], p, key);
      if p(s[0]) {
        forall j | 0 <= j < |rest| ensures key(rest[j]) != key(s[0]) {
          assert rest[j] in s[1..];
        }
        assert Filter(s, p) == [s[0]] + rest;
      } else {
        assert Filter(s, p) == rest;
      }
    }
  }

  function Identity<T>(x: T): T { x }

  /** A sequence without repetitions has as many elements as its set. */
  lemma {:induction false} DistinctCard<T>(u: seq<T>)
    requires forall i, j :: 0 <= i < j < |u| ==> u[i] != u[j]
    ensures |set x | x in u| == |u|
    decreases |u|
  {
    if u != [] {
      DistinctCard(u[1..]);
      assert u[0] !in u[1..];
      assert (set x | x in u) == {u[0]} + (set x | x in u[1..]) by {
        assert u == [u[0]] + u[1..];
      }
    }
  }

  /** Distinct values in first-seen order hold exactly the values of `s`. */
  lemma UniqueMembers<T>(s: seq<T>, x: T)
    ensures x in FirstOccurrences(s, Identity) <==> x in s
  {
    var u := FirstOccurrences(s, Identity);
    assert x in u <==> x in KeysOf(u, Identity);
    assert x in s <==> x in KeysOf(s, Identity);
  }

  /** A mask that selects every element leaves the sequence unchanged. */
  lemma {:induction false} FilterAll<T>(s: seq<T>, p: T -> bool)
    requires forall i :: 0 <= i < |s| ==> p(s[i])
    ensures Filter(s, p) == s
    decreases |s|
  {
    if s != [] {
      assert p(s[0]);
      FilterAll(s[1..], p);
      assert s == [s[0]] + s[1..];
    }
  }

  /** A subset as large as its superset is the superset. */
  lemma SubsetFull<T>(a: set<T>, b: set<T>)
    requires a <= b && |a| == |b|
    ensures a == b
  {
    assert |b - a| == |b| - |a|;
  }

  /** Every prefix of a subsequence is a subsequence. */
  lemma {:induction false} PrefixIsSubseq<T>(a: seq<T>, b: seq<T>, k: nat)
    requires IsSubseq(a, b)
    requires k <= |a|
    ensures IsSubseq(a[..k], b)
    decreases |b|
  {
    if k > 0 {
      if a[0] == b[0] && IsSubseq(a[1..], b[1..]) {
        PrefixIsSubseq(a[1..], b[1..], k - 1);
        assert a[..k][1..] == a[1..][..k - 1];
      } else {
        PrefixIsSubseq(a, b[1..], k);
      }
    }
  }

  /** A subsequence holds only elements of the sequence it came from. */
  lemma {:induction false} SubseqMember<T>(a: seq<T>, b: seq<T>, x: T)
    requires IsSubseq(a, b)
    requires x in a
    ensures x in b
    decreases |b|
  {
    if a[0] == b[0] && IsSubseq(a[1..], b[1..]) {
      if x != a[0] {
        assert x in a[1..];
        SubseqMember(a[1..], b[1..], x);
      }
    } else {
      SubseqMember(a, b[1..], x);
    }
  }

  /** The position of the first element of `s` selected by `p`, as pandas'
      `frame[mask].values[0]` picks the first selected row. */
  function FirstWhere<T>(s: seq<T>, p: T -> bool): (r: Option<nat>)
    ensures r.None? <==> forall i :: 0 <= i < |s| ==> !p(s[i])
    ensures r.Some? ==> r.value < |s| && p(s[r.value]) && forall j :: 0 <= j < r.value ==> !p(s[j])
    decreases |s|
  {
    if s == [] then None
    else if p(s[0]) then Some(0)
    else match FirstWhere(s[1..], p)
      case None => None
      case Some(i) => Some(i + 1)
  }

  /** Python's `s[:n]` and pandas' `head(n)` for a non-negative `n`. */
  function Take<T>(s: seq<T>, n: nat): (r: seq<T>)
    ensures |r| == if n < |s| then n else |s|
    ensures r == s[..|r|]
  {
    if n < |s| then s[..n] else s
  }

  // ---------------------------------------------------------------------------
  // First occurrences by key
  // ---------------------------------------------------------------------------

  function KeysOf<T(==), K>(s: seq<T>, key: T -> K): set<K>
  {
    set x | x in s :: key(x)
  }

  /** The position of the first element of `s` whose key is `k`. */
  function FirstIndex<T(==), K(==)>(s: seq<T>, key: T -> K, k: K): (i: nat)
    requires k in KeysOf(s, key)
    ensures i < |s| && key(s[i]) == k
    ensures forall j :: 0 <= j < i ==> key(s[j]) != k
    decreases |s|
  {
    if key(s[0]) == k then 0
    else
      assert k in KeysOf(s[1..], key) by {
        var x :| x in s && key(x) == k;
        assert x != s[0];
      }
      1 + FirstIndex(s[1..], key, k)
  }

  /** The elements of `s` whose key is not in `seen` and has not occurred
      earlier in `s`, in order: the first row for each key. */
  function FirstOccurrencesFrom<T(==), K(==)>(s: seq<T>, key: T -> K, seen: set<K>): (r: seq<T>)
    ensures KeysOf(r, key) == KeysOf(s, key) - seen
    ensures forall i, j :: 0 <= i < j < |r| ==> key(r[i]) != key(r[j])
    decreases |s|
  {
    if s == [] then []
    else if key(s[0]) in seen then
      assert KeysOf(s, key) - seen == KeysOf(s[1..], key) - seen by {
        assert s == [s[0]] + s[1..];
      }
      FirstOccurrencesFrom(s[1..], key, seen)
    else
      var rest := FirstOccurrencesFrom(s[1..], key, seen + {key(s[0])});
      assert KeysOf([s[0]] + rest, key) == {key(s[0])} + KeysOf(rest, key);
      assert KeysOf(s, key) == {key(s[0])} + KeysOf(s[1..], key) by {
        assert s == [s[0]] + s[1..];
      }
      [s[0]] + rest
  }

  /** pandas `drop_duplicates(keep='first')` on a key, and `unique()` when the
      key is the identity. */
  function FirstOccurrences<T(==), K(==)>(s: seq<T>, key: T -> K): (r: seq<T>)
    ensures KeysOf(r, key) == KeysOf(s, key)
    ensures forall i, j :: 0 <= i < j < |r| ==> key(r[i]) != key(r[j])
  {
    FirstOccurrencesFrom(s, key, {})
  }

  lemma {:induction false} FirstOccurrencesFromSubseq<T, K>(s: seq<T>, key: T -> K, seen: set<K>)
    ensures IsSubseq(FirstOccurrencesFrom(s, key, seen), s)
    decreases |s|
  {
    if s != [] {
      if key(s[0]) in seen {
        FirstOccurrencesFromSubseq(s[1..], key, seen);
      } else {
        FirstOccurrencesFromSubseq(s[1..], key, seen + {key(s[0])});
      }
    }
  }

  /** Each kept element is the FIRST element of `s` carrying its key. */
  lemma {:induction false} FirstOccurrencesFromAreFirst<T, K>(s: seq<T>, key: T -> K, seen: set<K>, i: nat)
    requires i < |FirstOccurrencesFrom(s, key, seen)|
    ensures key(FirstOccurrencesFrom(s, key, seen)[i]) in KeysOf(s, key)
    ensures FirstOccurrencesFrom(s, key, seen)[i] == s[FirstIndex(s, key, key(FirstOccurrencesFrom(s, key, seen)[i]))]
    decreases |s|
  {
    var r := FirstOccurrencesFrom(s, key, seen);
    assert r[i] in r;
    assert key(r[i]) in KeysOf(r, key);
    var k := key(r[i]);
    if key(s[0]) in seen {
      FirstOccurrencesFromAreFirst(s[1..], key, seen, i);
      assert k != key(s[0]);
      var j := FirstIndex(s[1..], key, k);
      assert s[1 + j] == s[1..][j];
      assert FirstIndex(s, key, k) == 1 + j by {
        var f := FirstIndex(s, key, k);
        assert f != 0;
        assert forall l :: 0 <= l < j ==> key(s[1 + l]) == key(s[1..][l]);
      }
    } else if i > 0 {
      var seen' := seen + {key(s[0])};
      FirstOccurrencesFromAreFirst(s[1..], key, seen', i - 1);
      assert r[i] == FirstOccurrencesFrom(s[1..], key, seen')[i - 1];
      assert k in KeysOf(FirstOccurrencesFrom(s[1..], key, seen'), key);
      assert k != key(s[0]);
      var j := FirstIndex(s[1..], key, k);
      assert s[1 + j] == s[1..][j];
      assert FirstIndex(s, key, k) == 1 + j by {
        var f := FirstIndex(s, key, k);
        assert f != 0;
        assert forall l :: 0 <= l < j ==> key(s[1 + l]) == key(s[1..][l]);
      }
    }
  }

  /** The kept elements appear in the order their keys first occur in `s`. */
  lemma {:induction false} FirstOccurrencesFromOrdered<T, K>(s: seq<T>, key: T -> K, seen: set<K>, i: nat, j: nat)
    requires i < j < |FirstOccurrencesFrom(s, key, seen)|
    ensures key(FirstOccurrencesFrom(s, key, seen)[i]) in KeysOf(s, key)
    ensures key(FirstOccurrencesFrom(s, key, seen)[j]) in KeysOf(s, key)
    ensures FirstIndex(s, key, key(FirstOccurrencesFrom(s, key, seen)[i]))
          < FirstIndex(s, key, key(FirstOccurrencesFrom(s, key, seen)[j]))
    decreases |s|
  {
    var r := FirstOccurrencesFrom(s, key, seen);
    FirstOccurrencesFromAreFirst(s, key, seen, i);
    FirstOccurrencesFromAreFirst(s, key, seen, j);
    var ki, kj := key(r[i]), key(r[j]);
    if key(s[0]) in seen {
      FirstOccurrencesFromOrdered(s[1..], key, seen, i, j);
      ShiftFirstIndex(s, key, ki);
      ShiftFirstIndex(s, key, kj);
    } else {
      var seen' := seen + {key(s[0])};
      var rest := FirstOccurrencesFrom(s[1..], key, seen');
      assert r[j] == rest[j - 1];
      assert kj in KeysOf(rest, key);
      ShiftFirstIndex(s, key, kj);
      if i > 0 {
        assert r[i] == rest[i - 1];
        assert ki in KeysOf(rest, key);
        FirstOccurrencesFromOrdered(s[1..], key, seen', i - 1, j - 1);
        ShiftFirstIndex(s, key, ki);
      }
    }
  }

  /** For a key that the head of `s` does not carry, its first index in `s` is
      one more than in the tail. */
  lemma ShiftFirstIndex<T, K>(s: seq<T>, key: T -> K, k: K)
    requires k in KeysOf(s, key)
    requires key(s[0]) != k
    ensures k in KeysOf(s[1..], key)
    ensures FirstIndex(s, key, k) == 1 + FirstIndex(s[1..], key, k)
  {
    var x :| x in s && key(x) == k;
    assert x != s[0];
    assert x in s[1..];
  }

  // ---------------------------------------------------------------------------
  // Orders and sorting
  // ---------------------------------------------------------------------------

  ghost predicate StrictTotalOrder<T(!new)>(lt: (T, T) -> bool)
  {
    && (forall a :: !lt(a, a))
    && (forall a, b, c :: lt(a, b) && lt(b, c) ==> lt(a, c))
    && (forall a, b :: a != b ==> lt(a, b) || lt(b, a))
  }

  predicate IntLess(a: int, b: int) { a < b }

  /** Python's comparison of `str` values: lexicographic by code point, a
      proper prefix sorting first. */
  predicate StrLess(a: string, b: string)
    decreases |a|
  {
    if a == [] then b != []
    else if b == [] then false
    else if a[0] != b[0] then a[0] < b[0]
    else StrLess(a[1..], b[1..])
  }

  lemma {:induction false} StrLessIrreflexive(a: string)
    ensures !StrLess(a, a)
    decreases |a|
  {
    if a != [] { StrLessIrreflexive(a[1..]); }
  }

  lemma {:induction false} StrLessTransitive(a: string, b: string, c: string)
    requires StrLess(a, b) && StrLess(b, c)
    ensures StrLess(a, c)
    decreases |a|
  {
    if a != [] && b != [] && c != [] && a[0] == b[0] && b[0] == c[0] {
      StrLessTransitive(a[1..], b[1..], c[1..]);
    }
  }

  lemma {:induction false} StrLessTotal(a: string, b: string)
    requires a != b
    ensures StrLess(a, b) || StrLess(b, a)
    decreases |a|
  {
    if a != [] && b != [] && a[0] == b[0] {
      assert a == [a[0]] + a[1..] && b == [b[0]] + b[1..];
      StrLessTotal(a[1..], b[1..]);
    }
  }

  lemma StrLessIsStrictTotalOrder()
    ensures StrictTotalOrder(StrLess)
  {
    forall a ensures !StrLess(a, a) { StrLessIrreflexive(a); }
    forall a, b, c | StrLess(a, b) && StrLess(b, c) ensures StrLess(a, c) {
      StrLessTransitive(a, b, c);
    }
    forall a, b | a != b ensures StrLess(a, b) || StrLess(b, a) { StrLessTotal(a, b); }
  }

  lemma IntLessIsStrictTotalOrder()
    ensures StrictTotalOrder(IntLess)
  {
  }

  ghost predicate SortedBy<T>(s: seq<T>, lt: (T, T) -> bool)
  {
    forall i, j :: 0 <= i < j < |s| ==> lt(s[i], s[j])
  }

  function Insert<T>(x: T, s: seq<T>, lt: (T, T) -> bool): (r: seq<T>)
    ensures multiset(r) == multiset(s) + multiset{x}
    decreases |s|
  {
    if s == [] then [x]
    else if lt(s[0], x) then
      assert s == [s[0]] + s[1..];
      [s[0]] + Insert(x, s[1..], lt)
    else [x] + s
  }

  /** Insertion sort under `lt`; for pandas this orders the group keys of a pivot. */
  function SortBy<T>(s: seq<T>, lt: (T, T) -> bool): (r: seq<T>)
    ensures multiset(r) == multiset(s)
    decreases |s|
  {
    if s == [] then []
    else
      assert s == [s[0]] + s[1..];
      Insert(s[0], SortBy(s[1..], lt), lt)
  }

  lemma {:induction false} InsertSorted<T(!new)>(x: T, s: seq<T>, lt: (T, T) -> bool)
    requires StrictTotalOrder(lt)
    requires SortedBy(s, lt) && x !in s
    ensures SortedBy(Insert(x, s, lt), lt)
    decreases |s|
  {
    if s != [] {
      if lt(s[0], x) {
        InsertSorted(x, s[1..], lt);
        var rest := Insert(x, s[1..], lt);
        forall y | y in rest ensures lt(s[0], y) {
          assert y in multiset(rest);
          if y != x {
            assert y in s[1..];
          }
        }
      } else {
        assert x != s[0];
      }
    }
  }

  /** Sorting distinct keys yields a strictly ascending sequence holding
      exactly those keys. */
  lemma {:induction false} SortByStrictlySorted<T(!new)>(s: seq<T>, lt: (T, T) -> bool)
    requires StrictTotalOrder(lt)
    requires forall i, j :: 0 <= i < j < |s| ==> s[i] != s[j]
    ensures SortedBy(SortBy(s, lt), lt)
    ensures forall x :: x in SortBy(s, lt) <==> x in s
    decreases |s|
  {
    var r := SortBy(s, lt);
    forall x ensures x in r <==> x in s {
      assert x in r <==> x in multiset(r);
    }
    if s != [] {
      SortByStrictlySorted(s[1..], lt);
      assert s[0] !in s[1..];
      InsertSorted(s[0], SortBy(s[1..], lt), lt);
    }
  }
}
