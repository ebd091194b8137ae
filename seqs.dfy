/** Applying a function to every element of a sequence, in order. */
module Seqs {
  function Map<A, B>(s: seq<A>, f: A -> B): (r: seq<B>)
    ensures |r| == |s|
  {
    if s == [] then [] else Map(s[..|s| - 1], f) + [f(s[|s| - 1])]
  }

  lemma {:induction false} MapAt<A, B>(s: seq<A>, f: A -> B, k: nat)
    requires k < |s|
    ensures Map(s, f)[k] == f(s[k])
  {
    var n := |s| - 1;
    if k < n {
      MapAt(s[..n], f, k);
    }
  }

  /** An element of the mapped sequence is the image of some element. */
  lemma MapIn<A, B>(s: seq<A>, f: A -> B, y: B)
    requires y in Map(s, f)
    ensures exists k :: 0 <= k < |s| && f(s[k]) == y
  {
    var k :| 0 <= k < |s| && Map(s, f)[k] == y;
    MapAt(s, f, k);
  }

  /** The image of every element is in the mapped sequence. */
  lemma MapHas<A, B>(s: seq<A>, f: A -> B, k: nat)
    requires k < |s|
    ensures f(s[k]) in Map(s, f)
  {
    MapAt(s, f, k);
  }

  /** Associativity, stated on opaque element types: used where the elements
      are records of a function the solver would otherwise unfold. */
  lemma AppendAssoc<T>(a: seq<T>, b: seq<T>, c: seq<T>)
    ensures (a + b) + c == a + (b + c)
  {
  }

  /** The number of positions of `s` whose element satisfies `p`. */
  ghost function CountWhere<T>(s: seq<T>, p: T -> bool): nat
  {
    |set k | 0 <= k < |s| && p(s[k])|
  }

  lemma CountNil<T>(s: seq<T>, p: T -> bool)
    requires s == []
    ensures CountWhere(s, p) == 0
  {
    var none := set k | 0 <= k < |s| && p(s[k]);
    assert none == {};
  }

  /** One more element adds one to the count exactly when it satisfies `p`. */
  lemma CountSnoc<T>(s: seq<T>, p: T -> bool)
    requires s != []
    ensures CountWhere(s, p) == CountWhere(s[..|s| - 1], p) + (if p(s[|s| - 1]) then 1 else 0)
  {
    var n := |s| - 1;
    var all := set k | 0 <= k < |s| && p(s[k]);
    var prev := set k | 0 <= k < |s[..n]| && p(s[..n][k]);
    if p(s[n]) {
      assert all == prev + {n};
    } else {
      assert all == prev;
    }
  }

  lemma MapSnoc<A, B>(s: seq<A>, x: A, f: A -> B)
    ensures Map(s + [x], f) == Map(s, f) + [f(x)]
  {
    assert (s + [x])[..|s|] == s;
  }

  lemma {:induction false} MapAppend<A, B>(a: seq<A>, b: seq<A>, f: A -> B)
    ensures Map(a + b, f) == Map(a, f) + Map(b, f)
    decreases |b|
  {
    if b == [] {
      assert a + b == a;
    } else {
      var n := |b| - 1;
      assert a + b == (a + b[..n]) + [b[n]];
      MapSnoc(a + b[..n], b[n], f);
      MapAppend(a, b[..n], f);
      MapSnoc(b[..n], b[n], f);
      assert b == b[..n] + [b[n]];
    }
  }
}
