/** Sequence facts used to keep larger proofs small. */
module Lists {
  lemma Assoc<T>(a: seq<T>, b: seq<T>, c: seq<T>)
    ensures a + (b + c) == (a + b) + c
  {
  }

  lemma TailOfConcat<T>(a: seq<T>, b: seq<T>)
    requires a != []
    ensures (a + b)[0] == a[0] && (a + b)[1..] == a[1..] + b
  {
  }

  lemma Whole<T>(xs: seq<T>)
    ensures xs[..|xs|] == xs
  {
  }

  lemma DropHead<T>(xs: seq<T>, i: nat)
    requires i < |xs|
    ensures xs[i..][0] == xs[i] && xs[i..][1..] == xs[i + 1..]
  {
  }

  lemma PrefixOfPrefix<T>(xs: seq<T>, i: nat)
    requires i < |xs|
    ensures xs[..i + 1][..i] == xs[..i] && xs[..i + 1][i] == xs[i]
  {
  }

  lemma PrefixSnoc<T>(xs: seq<T>, i: nat)
    requires i < |xs|
    ensures xs[..i + 1] == xs[..i] + [xs[i]]
  {
  }

  lemma HeadTail<T>(a: seq<T>)
    requires a != []
    ensures a == [a[0]] + a[1..] && multiset(a) == multiset([a[0]]) + multiset(a[1..])
  {
    assert a == [a[0]] + a[1..];
  }

  ghost function Count<T>(a: seq<T>, x: T): nat {
    multiset(a)[x]
  }

  lemma CountOfConcat<T>(a: seq<T>, b: seq<T>, x: T)
    ensures Count(a + b, x) == Count(a, x) + Count(b, x)
  {
  }

  lemma CountOfHeadTail<T>(a: seq<T>, x: T)
    requires a != []
    ensures Count(a, x) == Count([a[0]], x) + Count(a[1..], x)
  {
    assert a == [a[0]] + a[1..];
  }

  lemma SameCounts<T>(a: seq<T>, b: seq<T>)
    requires forall x :: Count(a, x) == Count(b, x)
    ensures multiset(a) == multiset(b)
  {
    forall x ensures multiset(a)[x] == multiset(b)[x] {
      assert Count(a, x) == Count(b, x);
    }
  }

  lemma SameMembers<T>(a: seq<T>, b: seq<T>)
    requires multiset(a) == multiset(b)
    ensures |a| == |b| && forall x :: x in a <==> x in b
  {
    assert |multiset(a)| == |a| && |multiset(b)| == |b|;
    forall x ensures x in a <==> x in b {
      assert x in a <==> x in multiset(a);
      assert x in b <==> x in multiset(b);
    }
  }

  /** Two lists of equal length, paired off by a relation. */
  ghost predicate AllPairs<A, B>(xs: seq<A>, ys: seq<B>, holds: (A, B) -> bool) {
    |xs| == |ys| && forall i :: 0 <= i < |xs| ==> holds(xs[i], ys[i])
  }

  lemma AllPairsConcat<A, B>(a: seq<A>, b: seq<A>, x: seq<B>, y: seq<B>, holds: (A, B) -> bool)
    requires AllPairs(a, x, holds) && AllPairs(b, y, holds)
    ensures AllPairs(a + b, x + y, holds)
  {
  }
}
