/** Python's orderings on strings and on tuples of strings, the stable `sorted(..., key=...)`,
    and the sorted listing of a set of strings. */
module Ordering {
  import Lists

  /** Code-point order on strings, as Python's `<` on `str`. */
  predicate Less(a: string, b: string) {
    if b == "" then false
    else if a == "" then true
    else a[0] < b[0] || (a[0] == b[0] && Less(a[1..], b[1..]))
  }

  /** The first difference decides; a proper prefix comes first. */
  ghost predicate FirstDifference(a: string, b: string, k: int) {
    0 <= k <= |a| && k < |b| && a[..k] == b[..k] && (k == |a| || a[k] < b[k])
  }

  lemma {:induction false} LessExactly(a: string, b: string)
    ensures Less(a, b) <==> exists k :: FirstDifference(a, b, k)
  {
    if b != "" {
      if a == "" || a[0] < b[0] {
        assert FirstDifference(a, b, 0);
      } else if a[0] == b[0] {
        LessExactly(a[1..], b[1..]);
        forall k | 0 <= k ensures FirstDifference(a[1..], b[1..], k) <==> FirstDifference(a, b, k + 1) {
          DifferenceShifts(a, b, k);
        }
        if k :| FirstDifference(a[1..], b[1..], k) { assert FirstDifference(a, b, k + 1); }
        if k :| FirstDifference(a, b, k) {
          assert k > 0;
          assert FirstDifference(a[1..], b[1..], k - 1);
        }
      } else {
        forall k ensures !FirstDifference(a, b, k) {
          if k > 0 && k <= |a| && k < |b| { assert a[..k][0] == a[0] && b[..k][0] == b[0]; }
        }
      }
    }
  }

  lemma DifferenceShifts(a: string, b: string, k: int)
    requires a != "" && b != "" && a[0] == b[0] && 0 <= k
    ensures FirstDifference(a[1..], b[1..], k) <==> FirstDifference(a, b, k + 1)
  {
    if k + 1 <= |a| && k + 1 < |b| {
      assert a[..k + 1] == [a[0]] + a[1..][..k] && b[..k + 1] == [b[0]] + b[1..][..k];
      assert a[..k + 1][1..] == a[1..][..k] && b[..k + 1][1..] == b[1..][..k];
    }
  }

  lemma {:induction false} LessIsTotal(a: string, b: string)
    ensures Less(a, b) || Less(b, a) || a == b
    ensures !(Less(a, b) && Less(b, a)) && !Less(a, a)
  {
    if a != "" {
      LessIsTotal(a[1..], a[1..]);
      if b != "" {
        LessIsTotal(a[1..], b[1..]);
        assert a == [a[0]] + a[1..] && b == [b[0]] + b[1..];
      }
    }
  }

  lemma {:induction false} LessIsTransitive(a: string, b: string, c: string)
    requires Less(a, b) && Less(b, c)
    ensures Less(a, c)
  {
    if a != "" && a[0] == b[0] && b[0] == c[0] {
      LessIsTransitive(a[1..], b[1..], c[1..]);
    }
  }

  /** Strictly increasing: each element is below every later one. */
  ghost predicate Increasing(xs: seq<string>) {
    forall i, j :: 0 <= i < j < |xs| ==> Less(xs[i], xs[j])
  }

  /** `sorted(s)` for a set: the strictly increasing listing of its elements. */
  method SortSet(s: set<string>) returns (xs: seq<string>)
    ensures Increasing(xs)
    ensures forall x :: x in xs <==> x in s
  {
    xs := [];
    var rest := s;
    while rest != {}
      invariant rest <= s
      invariant Increasing(xs)
      invariant forall x :: x in xs <==> x in s - rest
      decreases rest
    {
      var x :| x in rest;
      xs := InsertOnce(xs, x);
      rest := rest - {x};
    }
  }

  /** Place a new string into an increasing listing. */
  method InsertOnce(xs: seq<string>, x: string) returns (ys: seq<string>)
    requires Increasing(xs) && x !in xs
    ensures Increasing(ys)
    ensures forall y :: y in ys <==> y in xs || y == x
  {
    var i := 0;
    while i < |xs| && Less(xs[i], x)
      invariant 0 <= i <= |xs|
      invariant forall j :: 0 <= j < i ==> Less(xs[j], x)
    {
      i := i + 1;
    }
    ys := xs[..i] + [x] + xs[i..];
    forall j | i <= j < |xs| ensures Less(x, xs[j]) {
      LessIsTotal(xs[i], x);
      if i < j { LessIsTransitive(x, xs[i], xs[j]); }
    }
    assert xs == xs[..i] + xs[i..];
  }

  lemma HasElement(b: seq<string>)
    ensures b == [] || exists x :: x in b
  {
    if b != [] { assert b[0] in b; }
  }

  /** The increasing listing of a set is unique, so sorting leaves no freedom. */
  lemma {:induction false} IncreasingIsUnique(a: seq<string>, b: seq<string>)
    requires Increasing(a) && Increasing(b)
    requires forall x :: x in a <==> x in b
    ensures a == b
  {
    if a == [] {
      HasElement(b);
    } else {
      assert a[0] in b;
      assert b[0] in a;
      LessIsTotal(a[0], b[0]);
      forall x ensures x in a[1..] <==> x in b[1..] {
        LessIsTotal(a[0], a[0]);
        assert a == [a[0]] + a[1..] && b == [b[0]] + b[1..];
        assert x in a <==> x == a[0] || x in a[1..];
        assert x in b <==> x == b[0] || x in b[1..];
      }
      IncreasingIsUnique(a[1..], b[1..]);
    }
  }

  /** Order on sort keys: Python tuples of strings, compared left to right. */
  predicate KeyLess(a: seq<string>, b: seq<string>) {
    if b == [] then false
    else if a == [] then true
    else Less(a[0], b[0]) || (a[0] == b[0] && KeyLess(a[1..], b[1..]))
  }

  /** Triples compare by the first place where they differ. */
  lemma KeyLessOfThree(a: string, b: string, c: string, x: string, y: string, z: string)
    ensures KeyLess([a, b, c], [x, y, z]) <==> Less(a, x) || (a == x && (Less(b, y) || (b == y && Less(c, z))))
  {
    assert [a, b, c][1..] == [b, c] && [b, c][1..] == [c] && [c][1..] == [];
    assert [x, y, z][1..] == [y, z] && [y, z][1..] == [z] && [z][1..] == [];
    assert !KeyLess([], []);
    assert KeyLess([c], [z]) <==> Less(c, z);
    assert KeyLess([b, c], [y, z]) <==> Less(b, y) || (b == y && KeyLess([c], [z]));
  }

  lemma KeyLessOfTwo(a: string, b: string, x: string, y: string)
    ensures KeyLess([a, b], [x, y]) <==> Less(a, x) || (a == x && Less(b, y))
  {
    assert [a, b][1..] == [b] && [b][1..] == [] && [x, y][1..] == [y] && [y][1..] == [];
    assert !KeyLess([], []);
    assert KeyLess([b], [y]) <==> Less(b, y);
  }

  lemma {:induction false} KeyLessIsTotal(a: seq<string>, b: seq<string>)
    ensures KeyLess(a, b) || KeyLess(b, a) || a == b
    ensures !(KeyLess(a, b) && KeyLess(b, a)) && !KeyLess(a, a)
  {
    if a != [] {
      LessIsTotal(a[0], a[0]);
      KeyLessIsTotal(a[1..], a[1..]);
      if b != [] {
        LessIsTotal(a[0], b[0]);
        KeyLessIsTotal(a[1..], b[1..]);
        assert a == [a[0]] + a[1..] && b == [b[0]] + b[1..];
      }
    }
  }

  lemma {:induction false} KeyLessIsTransitive(a: seq<string>, b: seq<string>, c: seq<string>)
    requires KeyLess(a, b) && KeyLess(b, c)
    ensures KeyLess(a, c)
  {
    if a != [] {
      if a[0] == b[0] && b[0] == c[0] {
        LessIsTotal(a[0], a[0]);
        KeyLessIsTransitive(a[1..], b[1..], c[1..]);
      } else if Less(a[0], b[0]) && Less(b[0], c[0]) {
        LessIsTransitive(a[0], b[0], c[0]);
      }
    }
  }

  /** Insert before the first element whose key is not smaller. */
  function Insert<T>(x: T, xs: seq<T>, key: T -> seq<string>): seq<T> {
    if xs == [] then [x]
    else if KeyLess(key(xs[0]), key(x)) then [xs[0]] + Insert(x, xs[1..], key)
    else [x] + xs
  }

  /** `sorted(xs, key=key)`: Python's sort is stable. */
  function SortBy<T>(xs: seq<T>, key: T -> seq<string>): seq<T> {
    if xs == [] then [] else Insert(xs[0], SortBy(xs[1..], key), key)
  }

  ghost predicate SortedBy<T>(xs: seq<T>, key: T -> seq<string>) {
    forall i, j :: 0 <= i < j < |xs| ==> !KeyLess(key(xs[j]), key(xs[i]))
  }

  /** The elements carrying one key, in order. */
  ghost function WithKey<T>(xs: seq<T>, key: T -> seq<string>, k: seq<string>): seq<T> {
    if xs == [] then []
    else
      var rest := WithKey(xs[1..], key, k);
      if key(xs[0]) == k then [xs[0]] + rest else rest
  }

  lemma {:induction false} InsertPermutes<T>(x: T, xs: seq<T>, key: T -> seq<string>)
    ensures multiset(Insert(x, xs, key)) == multiset(xs) + multiset{x}
  {
    if xs != [] && KeyLess(key(xs[0]), key(x)) {
      InsertPermutes(x, xs[1..], key);
      assert xs == [xs[0]] + xs[1..];
    }
  }

  lemma {:induction false} InsertSorts<T>(x: T, xs: seq<T>, key: T -> seq<string>)
    requires SortedBy(xs, key)
    ensures SortedBy(Insert(x, xs, key), key)
  {
    if xs != [] {
      KeyLessIsTotal(key(xs[0]), key(x));
      if KeyLess(key(xs[0]), key(x)) {
        var tail := Insert(x, xs[1..], key);
        InsertSorts(x, xs[1..], key);
        InsertPermutes(x, xs[1..], key);
        forall y | y in tail ensures !KeyLess(key(y), key(xs[0])) {
          assert y in multiset(tail);
          assert y == x || y in xs[1..];
        }
      } else {
        forall i | 0 <= i < |xs| ensures !KeyLess(key(xs[i]), key(x)) {
          if KeyLess(key(xs[i]), key(x)) && key(xs[0]) != key(x) {
            KeyLessIsTransitive(key(xs[i]), key(x), key(xs[0]));
          }
        }
      }
    }
  }

  lemma {:induction false} InsertIsStable<T>(x: T, xs: seq<T>, key: T -> seq<string>, k: seq<string>)
    ensures WithKey(Insert(x, xs, key), key, k) == WithKey([x] + xs, key, k)
  {
    assert ([x] + xs)[1..] == xs;
    if xs == [] {
      assert [x] + xs == [x];
    } else if KeyLess(key(xs[0]), key(x)) {
      KeyLessIsTotal(key(xs[0]), key(x));
      InsertIsStable(x, xs[1..], key, k);
      assert ([x] + xs[1..])[1..] == xs[1..];
      assert Insert(x, xs, key)[1..] == Insert(x, xs[1..], key);
    }
  }

  /** Sorting is a permutation, is ordered, and keeps equal keys in their given order. */
  lemma {:induction false} SortByKeeps<T>(xs: seq<T>, key: T -> seq<string>)
    ensures multiset(SortBy(xs, key)) == multiset(xs)
    ensures SortedBy(SortBy(xs, key), key)
    ensures forall k :: WithKey(SortBy(xs, key), key, k) == WithKey(xs, key, k)
  {
    if xs != [] {
      var rest := SortBy(xs[1..], key);
      SortByKeeps(xs[1..], key);
      InsertPermutes(xs[0], rest, key);
      InsertSorts(xs[0], rest, key);
      assert xs == [xs[0]] + xs[1..];
      forall k ensures WithKey(SortBy(xs, key), key, k) == WithKey(xs, key, k) {
        InsertIsStable(xs[0], rest, key, k);
        assert ([xs[0]] + rest)[1..] == rest;
        assert WithKey(rest, key, k) == WithKey(xs[1..], key, k);
      }
    }
  }

  lemma {:induction false} WithKeyNonEmpty<T>(xs: seq<T>, key: T -> seq<string>, k: seq<string>)
    ensures WithKey(xs, key, k) != [] <==> exists i :: 0 <= i < |xs| && key(xs[i]) == k
  {
    if xs != [] {
      WithKeyNonEmpty(xs[1..], key, k);
      if i :| 0 <= i < |xs| && key(xs[i]) == k {
        if i > 0 { assert xs[1..][i - 1] == xs[i]; }
      }
    }
  }

  lemma {:induction false} WithKeyConcat<T>(a: seq<T>, b: seq<T>, key: T -> seq<string>, k: seq<string>)
    ensures WithKey(a + b, key, k) == WithKey(a, key, k) + WithKey(b, key, k)
  {
    if a == [] {
      assert a + b == b;
    } else {
      WithKeyConcat(a[1..], b, key, k);
      Lists.Assoc([a[0]], WithKey(a[1..], key, k), WithKey(b, key, k));
      Lists.TailOfConcat(a, b);
    }
  }

  /** A sorted sequence is determined by what it holds under each key. */
  lemma {:induction false} SortedIsUnique<T>(a: seq<T>, b: seq<T>, key: T -> seq<string>)
    requires SortedBy(a, key) && SortedBy(b, key)
    requires forall k :: WithKey(a, key, k) == WithKey(b, key, k)
    ensures a == b
  {
    if a == [] || b == [] {
      assert a == [] || WithKey(a, key, key(a[0])) == WithKey(b, key, key(a[0]));
      assert b == [] || WithKey(a, key, key(b[0])) == WithKey(b, key, key(b[0]));
    } else {
      HeadKeyBelow(a, b, key);
      HeadKeyBelow(b, a, key);
      var k0 := key(a[0]);
      KeyLessIsTotal(k0, key(b[0]));
      assert WithKey(a, key, k0) == WithKey(b, key, k0);
      assert a[0] == WithKey(a, key, k0)[0] == WithKey(b, key, k0)[0] == b[0];
      forall k ensures WithKey(a[1..], key, k) == WithKey(b[1..], key, k) {
        assert WithKey(a, key, k) == WithKey(b, key, k);
        assert WithKey(a, key, k)[(if k == k0 then 1 else 0)..] == WithKey(a[1..], key, k);
        assert WithKey(b, key, k)[(if k == k0 then 1 else 0)..] == WithKey(b[1..], key, k);
      }
      SortedIsUnique(a[1..], b[1..], key);
    }
  }

  lemma HeadKeyBelow<T>(a: seq<T>, b: seq<T>, key: T -> seq<string>)
    requires a != [] && b != [] && SortedBy(a, key)
    requires forall k :: WithKey(a, key, k) == WithKey(b, key, k)
    ensures !KeyLess(key(b[0]), key(a[0]))
  {
    var k := key(b[0]);
    assert WithKey(a, key, k) == WithKey(b, key, k);
    WithKeyNonEmpty(b, key, k);
    assert key(b[0]) == k;
    WithKeyNonEmpty(a, key, k);
    var i :| 0 <= i < |a| && key(a[i]) == k;
    KeyLessIsTotal(k, k);
  }
}
