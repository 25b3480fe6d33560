/** Facts about sequences that every walk over descriptors uses. */
module Sequences {

  /** Applies `f` to each element in turn and concatenates what it yields. */
  function FlatMap<A, B>(f: A -> seq<B>, s: seq<A>): seq<B> {
    if s == [] then [] else FlatMap(f, s[..|s| - 1]) + f(s[|s| - 1])
  }

  /** One round of a loop that appends `f(s[i])` to what it has collected after `start`. */
  lemma FlatMapStep<A, B>(f: A -> seq<B>, s: seq<A>, i: nat, start: seq<B>)
    requires i < |s|
    ensures start + FlatMap(f, s[..i]) + f(s[i]) == start + FlatMap(f, s[..i + 1])
  {
    assert s[..i + 1][..i] == s[..i];
    Assoc(start, FlatMap(f, s[..i]), f(s[i]));
  }

  lemma FlatMapSnoc<A, B>(f: A -> seq<B>, s: seq<A>, i: nat)
    requires i < |s|
    ensures FlatMap(f, s[..i + 1]) == FlatMap(f, s[..i]) + f(s[i])
  {
    assert s[..i + 1][..i] == s[..i];
  }

  lemma {:induction false} FlatMapAppend<A, B>(f: A -> seq<B>, a: seq<A>, b: seq<A>)
    ensures FlatMap(f, a + b) == FlatMap(f, a) + FlatMap(f, b)
  {
    if b == [] {
      assert a + b == a;
    } else {
      assert (a + b)[..|a + b| - 1] == a + b[..|b| - 1];
      FlatMapAppend(f, a, b[..|b| - 1]);
    }
  }

  lemma {:induction false} FlatMapEmpty<A, B>(f: A -> seq<B>, s: seq<A>)
    ensures FlatMap(f, s) == [] <==> forall x | x in s :: f(x) == []
  {
    if s != [] {
      FlatMapEmpty(f, s[..|s| - 1]);
      assert s == s[..|s| - 1] + [s[|s| - 1]];
    }
  }

  lemma {:induction false} FlatMapMember<A(!new), B>(f: A -> seq<B>, s: seq<A>, y: B)
    ensures y in FlatMap(f, s) <==> exists x :: x in s && y in f(x)
  {
    if s != [] {
      FlatMapMember(f, s[..|s| - 1], y);
      assert s == s[..|s| - 1] + [s[|s| - 1]];
    }
  }

  /** If each element yields at most what `g` yields, counted with multiplicity, so do all together. */
  lemma {:induction false} FlatMapAtMost<A, B>(f: A -> seq<B>, g: A -> seq<B>, s: seq<A>)
    requires forall x | x in s :: multiset(f(x)) <= multiset(g(x))
    ensures multiset(FlatMap(f, s)) <= multiset(FlatMap(g, s))
  {
    if s != [] {
      FlatMapAtMost(f, g, s[..|s| - 1]);
    }
  }

  lemma {:induction false} DistinctCount<T>(s: seq<T>, x: T)
    requires Distinct(s)
    ensures multiset(s)[x] <= 1
  {
    if s != [] {
      var init := s[..|s| - 1];
      DistinctCount(init, x);
      assert s == init + [s[|s| - 1]];
      assert s[|s| - 1] !in init;
    }
  }

  lemma {:induction false} CountsAreDistinct<T>(s: seq<T>)
    requires forall x | x in s :: multiset(s)[x] <= 1
    ensures Distinct(s)
  {
    if s != [] {
      var init, last := s[..|s| - 1], s[|s| - 1];
      assert s == init + [last];
      assert multiset(s) == multiset(init) + multiset{last};
      forall x | x in init ensures multiset(init)[x] <= 1 { assert x in s; }
      CountsAreDistinct(init);
      assert last in s && last !in multiset(init);
    }
  }

  lemma {:induction false} FlatMapNested<A, B, C>(f: B -> seq<C>, g: A -> seq<B>, h: A -> seq<C>, s: seq<A>)
    requires forall x | x in s :: h(x) == FlatMap(f, g(x))
    ensures FlatMap(f, FlatMap(g, s)) == FlatMap(h, s)
  {
    if s != [] {
      FlatMapNested(f, g, h, s[..|s| - 1]);
      FlatMapAppend(f, FlatMap(g, s[..|s| - 1]), g(s[|s| - 1]));
    }
  }

  /** Moves one element of `s` to the end; the rest keeps its order. */
  lemma {:induction false} RemoveOne<T>(s: seq<T>, x: T) returns (a: seq<T>, b: seq<T>)
    requires x in multiset(s)
    ensures s == a + [x] + b
    ensures multiset(a + b) == multiset(s) - multiset{x}
  {
    var k :| 0 <= k < |s| && s[k] == x;
    a, b := s[..k], s[k + 1..];
    assert s == a + [x] + b;
    assert multiset(s) == multiset(a) + multiset{x} + multiset(b);
  }

  lemma FlatMapMove<A, B>(f: A -> seq<B>, a: seq<A>, x: A, b: seq<A>)
    ensures multiset(FlatMap(f, a + [x] + b)) == multiset(FlatMap(f, a + b)) + multiset(f(x))
  {
    FlatMapAppend(f, a + [x], b);
    FlatMapAppend(f, a, [x]);
    FlatMapAppend(f, a, b);
    FlatMapOne(f, x);
  }

  /** What is collected, counted with multiplicity, does not depend on the visiting order. */
  lemma {:induction false} FlatMapOrder<A, B>(f: A -> seq<B>, s: seq<A>, t: seq<A>)
    requires multiset(s) == multiset(t)
    ensures multiset(FlatMap(f, s)) == multiset(FlatMap(f, t))
  {
    if s == [] {
      assert |multiset(t)| == 0;
    } else {
      var init, x := s[..|s| - 1], s[|s| - 1];
      assert s == init + [x];
      assert multiset(init) == multiset(s) - multiset{x};
      assert x in multiset(s);
      var a, b := RemoveOne(t, x);
      FlatMapOrder(f, init, a + b);
      FlatMapMove(f, a, x, b);
    }
  }

  function Map<A, B>(f: A -> B, s: seq<A>): seq<B> {
    seq(|s|, i requires 0 <= i < |s| => f(s[i]))
  }

  lemma MapAppend<A, B>(f: A -> B, a: seq<A>, x: A, b: seq<A>)
    ensures Map(f, a + ([x] + b)) == Map(f, a) + ([f(x)] + Map(f, b))
  {}

  lemma MapSnoc<A, B>(f: A -> B, s: seq<A>)
    requires s != []
    ensures Map(f, s) == Map(f, s[..|s| - 1]) + [f(s[|s| - 1])]
  {}

  lemma MapConcat<A, B>(f: A -> B, a: seq<A>, b: seq<A>)
    ensures Map(f, a + b) == Map(f, a) + Map(f, b)
  {}

  lemma CountAppend<T>(a: seq<T>, b: seq<T>, x: T)
    ensures multiset(a + b)[x] == multiset(a)[x] + multiset(b)[x]
  {}

  lemma CountOne<T>(x: T, y: T)
    ensures multiset([x])[y] == if x == y then 1 else 0
  {}

  lemma AtMostAppend<T>(a: seq<T>, b: seq<T>, c: seq<T>, d: seq<T>)
    requires multiset(a) <= multiset(c) && multiset(b) <= multiset(d)
    ensures multiset(a + b) <= multiset(c + d)
  {}

  /** Mapping commutes with a walk that yields mapped items on mapped input. */
  lemma {:induction false} FlatMapOfMap<A, B>(walk: A -> seq<B>, f: A -> A, g: B -> B, s: seq<A>)
    requires forall x | x in s :: walk(f(x)) == Map(g, walk(x))
    ensures FlatMap(walk, Map(f, s)) == Map(g, FlatMap(walk, s))
  {
    if s != [] {
      var init, x := s[..|s| - 1], s[|s| - 1];
      FlatMapOfMap(walk, f, g, init);
      assert Map(f, s)[..|s| - 1] == Map(f, init);
      assert Map(g, FlatMap(walk, init) + walk(x)) == Map(g, FlatMap(walk, init)) + Map(g, walk(x));
    }
  }

  lemma Assoc<T>(a: seq<T>, b: seq<T>, c: seq<T>)
    ensures a + b + c == a + (b + c)
  {}

  lemma Assoc3<T>(a: seq<T>, b: seq<T>, c: seq<T>, d: seq<T>)
    ensures a + b + c + d == a + (b + c + d)
  {}

  lemma Empty3<T>(a: seq<T>, b: seq<T>, c: seq<T>)
    ensures a + b + c == [] <==> a == [] && b == [] && c == []
  {}

  lemma FlatMapOne<A, B>(f: A -> seq<B>, x: A)
    ensures FlatMap(f, [x]) == f(x)
  {
    assert [x][..0] == [];
  }

  ghost predicate Distinct<T>(s: seq<T>) {
    forall i, j | 0 <= i < j < |s| :: s[i] != s[j]
  }

  lemma DistinctAppend<T>(a: seq<T>, b: seq<T>)
    requires Distinct(a) && Distinct(b) && forall x | x in b :: x !in a
    ensures Distinct(a + b)
    ensures forall x :: x in a + b <==> x in a || x in b
  {
    forall i, j | 0 <= i < j < |a + b| ensures (a + b)[i] != (a + b)[j] {
      if i < |a| <= j { assert (a + b)[j] == b[j - |a|] && b[j - |a|] in b; }
    }
  }

  /** `order` visits each index below `n` exactly once. */
  ghost predicate IsOrder(order: seq<nat>, n: nat) {
    && Distinct(order)
    && forall i: nat :: i in order <==> i < n
  }

  function Pick<T>(s: seq<T>, order: seq<nat>): (r: seq<T>)
    requires forall i | i in order :: i < |s|
    ensures |r| == |order|
    ensures forall k | 0 <= k < |order| :: order[k] in order && r[k] == s[order[k]]
  {
    seq(|order|, k requires 0 <= k < |order| && order[k] in order => s[order[k]])
  }

  /** One round of a loop that visits `s` in some order. */
  lemma PickStep<A, B>(f: A -> seq<B>, s: seq<A>, order: seq<nat>, i: nat)
    requires (forall k | k in order :: k < |s|) && i < |s|
    ensures FlatMap(f, Pick(s, order + [i])) == FlatMap(f, Pick(s, order)) + f(s[i])
  {
    assert Pick(s, order + [i])[..|order|] == Pick(s, order);
  }

  lemma PickSplit<T>(s: seq<T>, a: seq<nat>, n: nat, b: seq<nat>)
    requires n < |s| && forall i | i in a + [n] + b :: i < |s|
    requires forall i | i in a + b :: i < |s|
    ensures multiset(Pick(s, a + [n] + b)) == multiset(Pick(s, a + b)) + multiset{s[n]}
  {
    var all, rest := Pick(s, a + [n] + b), Pick(s, a + b);
    assert all[..|a|] == rest[..|a|] && all[|a|] == s[n] && all[|a| + 1..] == rest[|a|..];
    assert all == rest[..|a|] + [s[n]] + rest[|a|..];
    assert rest == rest[..|a|] + rest[|a|..];
  }

  lemma {:induction false} WithoutIndex(order: seq<nat>, k: nat)
    requires Distinct(order) && k < |order|
    ensures var rest := order[..k] + order[k + 1..];
            Distinct(rest) && forall i :: i in rest <==> i in order && i != order[k]
  {
    var rest := order[..k] + order[k + 1..];
    assert forall j | 0 <= j < |rest| :: rest[j] == order[if j < k then j else j + 1];
    forall i | i in order && i != order[k] ensures i in rest {
      var j :| 0 <= j < |order| && order[j] == i;
      assert rest[if j < k then j else j - 1] == i;
    }
  }

  lemma OrderWithoutLast(order: seq<nat>, n: nat) returns (a: seq<nat>, b: seq<nat>)
    requires IsOrder(order, n + 1)
    ensures order == a + [n] + b && IsOrder(a + b, n)
  {
    assert n in order;
    var k :| 0 <= k < |order| && order[k] == n;
    a, b := order[..k], order[k + 1..];
    WithoutIndex(order, k);
  }

  /** Visiting in any order sees every element, and each as often as it occurs. */
  lemma {:induction false} PickIsPermutation<T>(s: seq<T>, order: seq<nat>)
    requires IsOrder(order, |s|)
    ensures multiset(Pick(s, order)) == multiset(s)
  {
    if s == [] {
      assert forall k | 0 <= k < |order| :: order[k] in order;
    } else {
      var n := |s| - 1;
      var a, b := OrderWithoutLast(order, n);
      PickSplit(s, a, n, b);
      PickIsPermutation(s[..n], a + b);
      assert Pick(s[..n], a + b) == Pick(s, a + b);
      assert s == s[..n] + [s[n]];
    }
  }

  ghost predicate Pairwise<T>(rel: (T, T) -> bool, s: seq<T>) {
    forall i, j | 0 <= i < j < |s| :: rel(s[i], s[j])
  }

  lemma PairwiseAppend<T>(rel: (T, T) -> bool, a: seq<T>, b: seq<T>)
    requires Pairwise(rel, a) && Pairwise(rel, b) && forall x, y | x in a && y in b :: rel(x, y)
    ensures Pairwise(rel, a + b)
  {}

  /** Splitting related elements into related parts keeps all parts related. */
  lemma {:induction false} PairwiseParts<T(!new)>(rel: (T, T) -> bool, parts: T -> seq<T>, s: seq<T>)
    requires Pairwise(rel, s) && forall x | x in s :: Pairwise(rel, parts(x))
    requires forall x, y, p, q | x in s && y in s && rel(x, y) && p in parts(x) && q in parts(y) :: rel(p, q)
    ensures Pairwise(rel, FlatMap(parts, s))
  {
    if s != [] {
      var init, last := s[..|s| - 1], s[|s| - 1];
      PairwiseParts(rel, parts, init);
      forall p, q | p in FlatMap(parts, init) && q in parts(last) ensures rel(p, q) {
        FlatMapMember(parts, init, p);
        var x :| x in init && p in parts(x);
        assert rel(x, last);
      }
      PairwiseAppend(rel, FlatMap(parts, init), parts(last));
    }
  }

  // ---------- subsequences ----------

  /** The positions in `b` at which the elements of `a` are found, in order. */
  ghost predicate IsEmbedding<T>(at: seq<nat>, a: seq<T>, b: seq<T>) {
    && |at| == |a|
    && (forall i | 0 <= i < |a| :: at[i] < |b| && b[at[i]] == a[i])
    && forall i, j | 0 <= i < j < |a| :: at[i] < at[j]
  }

  /** `a` is `b` without some of its elements. */
  ghost predicate IsSubsequence<T(!new)>(a: seq<T>, b: seq<T>) {
    exists at :: IsEmbedding(at, a, b)
  }

  lemma SubsequenceOfOne<T(!new)>(x: T)
    ensures IsSubsequence<T>([], []) && IsSubsequence([], [x]) && IsSubsequence([x], [x])
  {
    var none: seq<T> := [];
    assert IsEmbedding([], none, none) && IsEmbedding([], none, [x]) && IsEmbedding([0], [x], [x]);
  }

  lemma EmbeddingAppend<T>(p: seq<nat>, q: seq<nat>, a: seq<T>, b: seq<T>, c: seq<T>, d: seq<T>)
    requires IsEmbedding(p, a, b) && IsEmbedding(q, c, d)
    ensures IsEmbedding(p + seq(|q|, i requires 0 <= i < |q| => |b| + q[i]), a + c, b + d)
  {
    var at := p + seq(|q|, i requires 0 <= i < |q| => |b| + q[i]);
    forall i | 0 <= i < |a + c| ensures at[i] < |b + d| && (b + d)[at[i]] == (a + c)[i] {
      if i >= |a| { assert at[i] == |b| + q[i - |a|]; }
    }
    forall i, j | 0 <= i < j < |a + c| ensures at[i] < at[j] {
      if j >= |a| { assert at[j] == |b| + q[j - |a|]; }
      if i >= |a| { assert at[i] == |b| + q[i - |a|]; }
    }
  }

  lemma SubsequenceAppend<T(!new)>(a: seq<T>, b: seq<T>, c: seq<T>, d: seq<T>)
    requires IsSubsequence(a, b) && IsSubsequence(c, d)
    ensures IsSubsequence(a + c, b + d)
  {
    var p, q :| IsEmbedding(p, a, b) && IsEmbedding(q, c, d);
    EmbeddingAppend(p, q, a, b, c, d);
  }

  lemma SubsequenceSnoc<T(!new)>(a: seq<T>, b: seq<T>, more: seq<T>, x: T)
    requires IsSubsequence(a, b) && (more == [] || more == [x])
    ensures IsSubsequence(a + more, b + [x])
  {
    SubsequenceOfOne(x);
    SubsequenceAppend(a, b, more, [x]);
  }

  lemma {:induction false} FlatMapSubsequence<A, B(!new)>(f: A -> seq<B>, g: A -> seq<B>, s: seq<A>)
    requires forall x | x in s :: IsSubsequence(f(x), g(x))
    ensures IsSubsequence(FlatMap(f, s), FlatMap(g, s))
  {
    if s == [] {
      assert IsEmbedding([], FlatMap(f, s), FlatMap(g, s));
    } else {
      FlatMapSubsequence(f, g, s[..|s| - 1]);
      SubsequenceAppend(FlatMap(f, s[..|s| - 1]), FlatMap(g, s[..|s| - 1]), f(s[|s| - 1]), g(s[|s| - 1]));
    }
  }
}
