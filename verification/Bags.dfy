/** Counting without order: what the work in flight contributes, and picking from a sequence. */
module Bags {
  import opened Wire
  import opened EndToEnd
  import opened Protocol

  /** What `f` finds in each piece of work, taken together. */
  function Bag<T(==)>(work: seq<Work>, f: Work -> multiset<T>): multiset<T> {
    if work == [] then multiset{} else Bag(work[..|work| - 1], f) + f(work[|work| - 1])
  }

  lemma {:induction false} BagConcat<T>(a: seq<Work>, b: seq<Work>, f: Work -> multiset<T>)
    ensures Bag(a + b, f) == Bag(a, f) + Bag(b, f)
    decreases |b|
  {
    if b == [] {
      assert a + b == a;
    } else {
      assert (a + b)[..|a + b| - 1] == a + b[..|b| - 1];
      BagConcat(a, b[..|b| - 1], f);
    }
  }

  lemma BagOne<T>(w: Work, f: Work -> multiset<T>)
    ensures Bag([w], f) == f(w)
  {
    assert [w][..0] == [];
  }

  lemma BagWithout<T>(work: seq<Work>, i: nat, f: Work -> multiset<T>)
    requires i < |work|
    ensures Bag(work, f) == Bag(Without(work, i), f) + f(work[i])
  {
    hide Bag;
    assert work == work[..i] + [work[i]] + work[i + 1..];
    BagConcat(work[..i] + [work[i]], work[i + 1..], f);
    BagConcat(work[..i], [work[i]], f);
    BagConcat(work[..i], work[i + 1..], f);
    BagOne(work[i], f);
  }

  lemma {:induction false} BagFind<T>(work: seq<Work>, f: Work -> multiset<T>, x: T) returns (i: nat)
    requires x in Bag(work, f)
    ensures i < |work| && x in f(work[i])
    decreases |work|
  {
    i := |work| - 1;
    if x !in f(work[i]) { i := BagFind(work[..i], f, x); }
  }

  lemma PickConcat<T>(xs: seq<T>, a: seq<nat>, b: seq<nat>)
    requires Known(a, |xs|) && Known(b, |xs|)
    ensures Known(a + b, |xs|) && Pick(xs, a + b) == Pick(xs, a) + Pick(xs, b)
  {
  }

  lemma PickFront<T>(xs: seq<T>, n: nat, order: seq<nat>)
    requires Known(order, n) && n <= |xs|
    ensures Known(order, |xs|) && Pick(xs[..n], order) == Pick(xs, order)
  {
  }

  /** The place of `n` taken out of an order of the places up to `n`. */
  lemma TakeOut(order: seq<nat>, n: nat) returns (a: seq<nat>, b: seq<nat>)
    requires Distinct(order) && Known(order, n + 1) && n in order
    ensures order == a + [n] + b
    ensures Distinct(a + b) && Known(a, n) && Known(b, n)
    ensures forall e: nat :: e < n && e in order ==> e in a + b
  {
    var j :| 0 <= j < |order| && order[j] == n;
    a, b := order[..j], order[j + 1..];
    assert order == a + [n] + b;
    WithoutOne(order, j);
    Members(a, n, b);
  }

  lemma Members(a: seq<nat>, n: nat, b: seq<nat>)
    ensures forall e: nat :: e in a + [n] + b ==> e == n || e in a + b
  {
    forall e: nat | e in a + [n] + b
      ensures e == n || e in a + b
    {
      assert e in a || e == n || e in b;
    }
  }

  lemma WithoutOne(order: seq<nat>, j: nat)
    requires Distinct(order) && j < |order|
    ensures Distinct(order[..j] + order[j + 1..])
  {
    var rest := order[..j] + order[j + 1..];
    forall i, k | 0 <= i < k < |rest|
      ensures rest[i] != rest[k]
    {
      assert rest[i] == order[if i < j then i else i + 1] && rest[k] == order[if k < j then k else k + 1];
    }
  }

  /** Picking at distinct places takes nothing twice, and picking at every place takes everything. */
  lemma {:induction false} PickBag<T>(xs: seq<T>, order: seq<nat>)
    requires Distinct(order) && Known(order, |xs|)
    ensures multiset(Pick(xs, order)) <= multiset(xs)
    ensures (forall e: nat :: e < |xs| ==> e in order) ==> multiset(Pick(xs, order)) == multiset(xs)
    decreases |xs|
  {
    hide Pick, Distinct;
    if xs == [] {
      KnownFirst(order, 0);
    } else {
      var n := |xs| - 1;
      assert xs == xs[..n] + [xs[n]];
      if n in order {
        var a, b := TakeOut(order, n);
        PickBag(xs[..n], a + b);
        PickConcat(xs[..n], a, b);
        PickFront(xs, n, a);
        PickFront(xs, n, b);
        PickConcat(xs, a, [n]);
        PickConcat(xs, a + [n], b);
        PickOne(xs, n);
      } else {
        PickBag(xs[..n], order);
        PickFront(xs, n, order);
      }
    }
  }

  lemma KnownFirst(order: seq<nat>, n: nat)
    requires Known(order, n)
    ensures order == [] || order[0] < n
  {
  }

  lemma PickOne<T>(xs: seq<T>, n: nat)
    requires n < |xs|
    ensures Pick(xs, [n]) == [xs[n]]
  {
  }
}
