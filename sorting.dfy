/** Python's `sorted(items, key=lambda item: (number, title), reverse=...)`
    for the key shapes the movie commands use: a number compared first, the
    title breaking ties. */
module Sorting {
  import opened Text

  /** A sort key `(primary, title)`. Ratings, years and fuzzy scores all fit in `primary`. */
  datatype Key = Key(primary: real, title: string)

  /** Python's tuple comparison on `(primary, title)`. */
  predicate KeyLess(a: Key, b: Key)
  {
    a.primary < b.primary || (a.primary == b.primary && LexLess(a.title, b.title))
  }

  /** `a` may stand before `b` in a list sorted ascending (`desc` false) or
      descending (`desc` true, i.e. `reverse=True`). */
  predicate Before(a: Key, b: Key, desc: bool)
  {
    if desc then !KeyLess(a, b) else !KeyLess(b, a)
  }

  predicate SortedBy<T>(s: seq<T>, key: T -> Key, desc: bool)
  {
    forall i, j :: 0 <= i < j < |s| ==> Before(key(s[i]), key(s[j]), desc)
  }

  lemma KeyTotal(a: Key, b: Key)
    ensures a == b || KeyLess(a, b) || KeyLess(b, a)
  {
    LexTotal(a.title, b.title);
  }

  lemma KeyAsymmetric(a: Key, b: Key)
    requires KeyLess(a, b)
    ensures !KeyLess(b, a)
  {
    if a.primary == b.primary {
      LexAsymmetric(a.title, b.title);
    }
  }

  lemma KeyTransitive(a: Key, b: Key, c: Key)
    requires KeyLess(a, b) && KeyLess(b, c)
    ensures KeyLess(a, c)
  {
    if a.primary == b.primary == c.primary {
      LexTransitive(a.title, b.title, c.title);
    }
  }

  lemma BeforeReflexive(a: Key, desc: bool)
    ensures Before(a, a, desc)
  {
    LexIrreflexive(a.title);
  }

  lemma BeforeTotal(a: Key, b: Key, desc: bool)
    ensures Before(a, b, desc) || Before(b, a, desc)
  {
    if KeyLess(a, b) {
      KeyAsymmetric(a, b);
    }
  }

  lemma BeforeAntisymmetric(a: Key, b: Key, desc: bool)
    requires Before(a, b, desc) && Before(b, a, desc)
    ensures a == b
  {
    KeyTotal(a, b);
  }

  lemma BeforeTransitive(a: Key, b: Key, c: Key, desc: bool)
    requires Before(a, b, desc) && Before(b, c, desc)
    ensures Before(a, c, desc)
  {
    KeyTotal(a, b);
    KeyTotal(b, c);
    if desc {
      if KeyLess(a, c) {
        if KeyLess(c, b) {
          KeyTransitive(a, c, b);
        } else if KeyLess(b, a) {
          KeyTransitive(b, a, c);
          KeyAsymmetric(b, c);
        }
      }
    } else {
      if KeyLess(c, a) {
        if KeyLess(b, c) {
          KeyTransitive(b, c, a);
        } else if KeyLess(a, b) {
          KeyTransitive(c, a, b);
          KeyAsymmetric(c, b);
        }
      }
    }
  }

  /** Places `x` into a sorted list. */
  function Insert<T>(x: T, s: seq<T>, key: T -> Key, desc: bool): (r: seq<T>)
    ensures multiset(r) == multiset(s) + multiset{x}
    ensures |r| == |s| + 1
    decreases |s|
  {
    if s == [] then [x]
    else if Before(key(x), key(s[0]), desc) then [x] + s
    else
      assert s == [s[0]] + s[1..];
      [s[0]] + Insert(x, s[1..], key, desc)
  }

  /** Insertion sort: a permutation of the input (sortedness is `SortSorted`). */
  function Sort<T>(s: seq<T>, key: T -> Key, desc: bool): (r: seq<T>)
    ensures multiset(r) == multiset(s)
    ensures |r| == |s|
    decreases |s|
  {
    if s == [] then []
    else
      assert s == [s[0]] + s[1..];
      Insert(s[0], Sort(s[1..], key, desc), key, desc)
  }

  lemma {:induction false} InsertSorted<T>(x: T, s: seq<T>, key: T -> Key, desc: bool)
    requires SortedBy(s, key, desc)
    ensures SortedBy(Insert(x, s, key, desc), key, desc)
    decreases |s|
  {
    if s == [] {
    } else if Before(key(x), key(s[0]), desc) {
      var r := [x] + s;
      forall i, j | 0 <= i < j < |r|
        ensures Before(key(r[i]), key(r[j]), desc)
      {
        if i == 0 && j > 1 {
          BeforeTransitive(key(x), key(s[0]), key(s[j - 1]), desc);
        }
      }
    } else {
      BeforeTotal(key(x), key(s[0]), desc);
      var rest := Insert(x, s[1..], key, desc);
      InsertSorted(x, s[1..], key, desc);
      var r := [s[0]] + rest;
      forall i, j | 0 <= i < j < |r|
        ensures Before(key(r[i]), key(r[j]), desc)
      {
        if i == 0 {
          var y := r[j];
          assert y in multiset(rest);
          assert y == x || y in multiset(s[1..]);
          if y != x {
            var k :| 0 <= k < |s[1..]| && s[1..][k] == y;
            assert s[k + 1] == y;
          }
        }
      }
    }
  }

  /** The result of `Sort` is ordered by the key in the requested direction. */
  lemma {:induction false} SortSorted<T>(s: seq<T>, key: T -> Key, desc: bool)
    ensures SortedBy(Sort(s, key, desc), key, desc)
    decreases |s|
  {
    if s != [] {
      SortSorted(s[1..], key, desc);
      InsertSorted(s[0], Sort(s[1..], key, desc), key, desc);
    }
  }

  lemma MultisetTail<T>(s: seq<T>)
    requires s != []
    ensures multiset(s[1..]) == multiset(s) - multiset{s[0]}
  {
    assert s == [s[0]] + s[1..];
  }

  /** No two items of `s` share a label `f`. */
  ghost predicate DistinctBy<T, L>(s: seq<T>, f: T -> L)
  {
    forall i, j :: 0 <= i < j < |s| ==> f(s[i]) != f(s[j])
  }

  /** Items with distinct labels occur at most once each. */
  lemma {:induction false} DistinctCountsOnce<T, L>(s: seq<T>, f: T -> L, x: T)
    requires DistinctBy(s, f)
    ensures multiset(s)[x] <= 1
  {
    if s != [] {
      var init, last := s[..|s| - 1], s[|s| - 1];
      assert s == init + [last];
      assert DistinctBy(init, f);
      DistinctCountsOnce(init, f, x);
      forall y | y in init
        ensures y != last
      {
        var k :| 0 <= k < |init| && init[k] == y;
        assert s[k] == y;
      }
    }
  }

  /** A rearrangement keeps the labels distinct. */
  lemma PermutationDistinct<T, L>(s: seq<T>, r: seq<T>, f: T -> L)
    requires DistinctBy(s, f) && multiset(r) == multiset(s)
    ensures DistinctBy(r, f)
  {
    forall i, j | 0 <= i < j < |r|
      ensures f(r[i]) != f(r[j])
    {
      if f(r[i]) == f(r[j]) {
        assert r[i] in multiset(s) && r[j] in multiset(s);
        var a :| 0 <= a < |s| && s[a] == r[i];
        var b :| 0 <= b < |s| && s[b] == r[j];
        assert a == b;
        var e := r[i];
        assert r == r[..j] + r[j..];
        assert e in r[..j] && e == r[j..][0];
        assert multiset(r)[e] == multiset(r[..j])[e] + multiset(r[j..])[e];
        DistinctCountsOnce(s, f, e);
        assert false;
      }
    }
  }

  /** When no two items share a key, there is only one sorted arrangement of
      them: the order is a function of the keys alone. */
  lemma {:induction false} SortedUnique<T>(a: seq<T>, b: seq<T>, key: T -> Key, desc: bool)
    requires multiset(a) == multiset(b)
    requires SortedBy(a, key, desc) && SortedBy(b, key, desc)
    requires forall x, y :: x in a && y in a && key(x) == key(y) ==> x == y
    ensures a == b
    decreases |a|
  {
    assert |a| == |multiset(a)| == |multiset(b)| == |b|;
    if a != [] {
      assert a[0] in multiset(b) && b[0] in multiset(a);
      var k :| 0 <= k < |b| && b[k] == a[0];
      var m :| 0 <= m < |a| && a[m] == b[0];
      if k == 0 { BeforeReflexive(key(a[0]), desc); }
      if m == 0 { BeforeReflexive(key(b[0]), desc); }
      BeforeAntisymmetric(key(a[0]), key(b[0]), desc);
      assert a[0] == b[0];
      MultisetTail(a);
      MultisetTail(b);
      SortedUnique(a[1..], b[1..], key, desc);
    }
  }
}
