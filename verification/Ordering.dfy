/** Python's `sorted` over a set, and the order of strings by code point. */
module Ordering {

  /** `less` orders the elements of `keys` totally and strictly. */
  ghost predicate TotalOn<K(!new)>(keys: set<K>, less: (K, K) -> bool) {
    && (forall a | a in keys :: !less(a, a))
    && (forall a, b | a in keys && b in keys :: a == b || less(a, b) || less(b, a))
    && (forall a, b, c | a in keys && b in keys && c in keys && less(a, b) && less(b, c) :: less(a, c))
  }

  ghost predicate Increasing<K(!new)>(s: seq<K>, less: (K, K) -> bool) {
    forall i, j | 0 <= i < j < |s| :: less(s[i], s[j])
  }

  /** Inserts one element into an increasing sequence. */
  method Insert<K(!new)>(s: seq<K>, x: K, less: (K, K) -> bool, ghost keys: set<K>) returns (r: seq<K>)
    requires TotalOn(keys, less) && x in keys && x !in s && (forall k | k in s :: k in keys)
    requires Increasing(s, less)
    ensures Increasing(r, less)
    ensures forall k :: k in r <==> k in s || k == x
  {
    var i := 0;
    while i < |s| && less(s[i], x)
      invariant 0 <= i <= |s|
      invariant forall j | 0 <= j < i :: less(s[j], x)
    {
      i := i + 1;
    }
    r := s[..i] + [x] + s[i..];
    InsertedIncreases(s, x, i, less, keys);
  }

  lemma InsertedIncreases<K(!new)>(s: seq<K>, x: K, i: nat, less: (K, K) -> bool, keys: set<K>)
    requires TotalOn(keys, less) && x in keys && x !in s && (forall k | k in s :: k in keys)
    requires Increasing(s, less) && i <= |s|
    requires forall j | 0 <= j < i :: less(s[j], x)
    requires i < |s| ==> !less(s[i], x)
    ensures Increasing(s[..i] + [x] + s[i..], less)
    ensures forall k :: k in s[..i] + [x] + s[i..] <==> k in s || k == x
  {
  }

  method SortKeys<K(!new, ==)>(keys: set<K>, less: (K, K) -> bool) returns (r: seq<K>)
    requires TotalOn(keys, less)
    ensures Increasing(r, less)
    ensures forall k :: k in r <==> k in keys
  {
    r := [];
    var rest := keys;
    while rest != {}
      invariant rest <= keys
      invariant Increasing(r, less)
      invariant forall k :: k in r <==> k in keys && k !in rest
    {
      var x :| x in rest;
      r := Insert(r, x, less, keys);
      rest := rest - {x};
    }
  }

  lemma TailOfIncreasing<K(!new)>(s: seq<K>, less: (K, K) -> bool, keys: set<K>)
    requires TotalOn(keys, less) && Increasing(s, less) && s != []
    requires forall k | k in s :: k in keys
    ensures Increasing(s[1..], less)
    ensures forall k :: k in s[1..] <==> k in s && k != s[0]
    ensures forall k | k in s :: k == s[0] || less(s[0], k)
  {
  }

  /** An increasing sequence is determined by its elements. */
  lemma {:induction false} IncreasingIsUnique<K(!new)>(s: seq<K>, t: seq<K>, less: (K, K) -> bool, keys: set<K>)
    requires TotalOn(keys, less)
    requires Increasing(s, less) && Increasing(t, less)
    requires forall k :: k in s <==> k in t
    requires forall k | k in s :: k in keys
    ensures s == t
  {
    assert s == [] <==> t == [] by {
      assert s != [] ==> s[0] in t;
      assert t != [] ==> t[0] in s;
    }
    if s != [] {
      TailOfIncreasing(s, less, keys);
      TailOfIncreasing(t, less, keys);
      assert s[0] == t[0] by {
        assert s[0] in s && t[0] in t;
        assert s[0] in t && t[0] in s;
      }
      IncreasingIsUnique(s[1..], t[1..], less, keys);
      assert s == [s[0]] + s[1..] && t == [t[0]] + t[1..];
    }
  }

  /** Lexicographic order by code point, as Python compares strings. */
  predicate LexLess(a: string, b: string) {
    && b != []
    && (a == [] || a[0] < b[0] || (a[0] == b[0] && LexLess(a[1..], b[1..])))
  }

  lemma {:induction false} LexTotal(a: string, b: string)
    ensures a == b || LexLess(a, b) || LexLess(b, a)
    ensures !(LexLess(a, b) && LexLess(b, a))
  {
    if a != [] && b != [] && a[0] == b[0] {
      LexTotal(a[1..], b[1..]);
      assert a == [a[0]] + a[1..] && b == [b[0]] + b[1..];
    }
  }

  lemma {:induction false} LexTransitive(a: string, b: string, c: string)
    requires LexLess(a, b) && LexLess(b, c)
    ensures LexLess(a, c)
  {
    if a != [] && a[0] == b[0] && b[0] == c[0] {
      LexTransitive(a[1..], b[1..], c[1..]);
    }
  }

  lemma LexIsTotalOn(keys: set<string>)
    ensures TotalOn(keys, LexLess)
  {
    forall a, b | a in keys && b in keys ensures a == b || LexLess(a, b) || LexLess(b, a) {
      LexTotal(a, b);
    }
    forall a | a in keys ensures !LexLess(a, a) {
      LexTotal(a, a);
    }
    forall a, b, c | a in keys && b in keys && c in keys && LexLess(a, b) && LexLess(b, c) ensures LexLess(a, c) {
      LexTransitive(a, b, c);
    }
  }

  /** Two different positions hold related elements. */
  ghost predicate PairAt<T(!new)>(s: seq<T>, related: (T, T) -> bool) {
    exists i, j :: 0 <= i < |s| && 0 <= j < |s| && i != j && related(s[i], s[j])
  }

  /** The same of a bag. */
  ghost predicate PairIn<T(!new)>(bag: multiset<T>, related: (T, T) -> bool) {
    exists a, b :: a in bag && b in bag - multiset{a} && related(a, b)
  }

  /** Whether two positions hold related elements does not depend on the order. */
  lemma PairsByMultiset<T(!new)>(s: seq<T>, related: (T, T) -> bool)
    ensures PairAt(s, related) <==> PairIn(multiset(s), related)
  {
    if i, j :| 0 <= i < |s| && 0 <= j < |s| && i != j && related(s[i], s[j]) {
      OtherInBag(s, i, j);
    }
    if a, b :| a in multiset(s) && b in multiset(s) - multiset{a} && related(a, b) {
      var i, j := BagToPositions(s, a, b);
    }
  }

  lemma OtherInBag<T>(s: seq<T>, i: nat, j: nat)
    requires i < |s| && j < |s| && i != j
    ensures s[i] in multiset(s) && s[j] in multiset(s) - multiset{s[i]}
  {
    Without(s, i);
    var rest := s[..i] + s[i + 1..];
    assert rest[if j < i then j else j - 1] == s[j];
    assert s[j] in rest;
  }

  lemma BagToPositions<T>(s: seq<T>, a: T, b: T) returns (i: nat, j: nat)
    requires a in multiset(s) && b in multiset(s) - multiset{a}
    ensures i < |s| && j < |s| && i != j && s[i] == a && s[j] == b
  {
    i :| i < |s| && s[i] == a;
    Without(s, i);
    var rest := s[..i] + s[i + 1..];
    assert b in rest;
    var k :| 0 <= k < |rest| && rest[k] == b;
    j := if k < i then k else k + 1;
  }

  /** An element is counted twice exactly when two positions hold it. */
  lemma TwiceByCount<T(!new)>(s: seq<T>, x: T)
    ensures multiset(s)[x] >= 2 <==> exists i, j :: 0 <= i < j < |s| && s[i] == x && s[j] == x
  {
    if i, j :| 0 <= i < j < |s| && s[i] == x && s[j] == x {
      OtherInBag(s, i, j);
    }
    if multiset(s)[x] >= 2 {
      var i, j := BagToPositions(s, x, x);
      assert i < j || j < i;
    }
  }

  lemma Without<T>(s: seq<T>, i: nat)
    requires i < |s|
    ensures multiset(s) - multiset{s[i]} == multiset(s[..i] + s[i + 1..])
  {
    assert s == s[..i] + [s[i]] + s[i + 1..];
  }
}
