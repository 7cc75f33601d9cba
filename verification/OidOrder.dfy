/**
 The order of object identifiers: sub-identifier tuples compared the way the agent compares them,
 element by element, a proper prefix coming first. Everything the MIB index relies on is here:
 the order is a strict total order, the OIDs under one prefix form an interval, and the intervals of
 two prefixes, neither of which extends the other, do not interleave.
 */
module OidOrder {

  type Oid = seq<nat>

  predicate Lt(a: Oid, b: Oid) {
    if a == [] then b != []
    else if b == [] then false
    else a[0] < b[0] || (a[0] == b[0] && Lt(a[1..], b[1..]))
  }

  predicate Le(a: Oid, b: Oid) {
    a == b || Lt(a, b)
  }

  /** `p` is the identifier prefix of `a`: `a` lies in the subtree named `p`. */
  predicate Under(p: Oid, a: Oid) {
    p <= a
  }

  // ----- a strict total order -----

  lemma {:induction false} LtIrreflexive(a: Oid)
    ensures !Lt(a, a)
  {
    if a != [] {
      LtIrreflexive(a[1..]);
    }
  }

  lemma {:induction false} LtTransitive(a: Oid, b: Oid, c: Oid)
    requires Lt(a, b) && Lt(b, c)
    ensures Lt(a, c)
  {
    if a != [] && a[0] == b[0] && b[0] == c[0] {
      LtTransitive(a[1..], b[1..], c[1..]);
    }
  }

  lemma {:induction false} LtTotal(a: Oid, b: Oid)
    ensures a == b || Lt(a, b) || Lt(b, a)
  {
    if a != [] && b != [] && a[0] == b[0] {
      LtTotal(a[1..], b[1..]);
      assert a == [a[0]] + a[1..] && b == [b[0]] + b[1..];
    }
  }

  lemma LtAsymmetric(a: Oid, b: Oid)
    requires Lt(a, b)
    ensures !Le(b, a)
  {
    LtIrreflexive(a);
    if Le(b, a) && b != a {
      LtTransitive(a, b, a);
    }
  }

  lemma LeTransitive(a: Oid, b: Oid, c: Oid)
    requires Le(a, b) && Le(b, c)
    ensures Le(a, c)
    ensures Lt(a, b) || Lt(b, c) ==> Lt(a, c)
  {
    if a != b && b != c {
      LtTransitive(a, b, c);
    }
  }

  // ----- the order and prefixes -----

  lemma {:induction false} PrefixComesFirst(p: Oid, a: Oid)
    requires Under(p, a)
    ensures Le(p, a)
  {
    if p != [] {
      assert p[0] == a[0] && p[1..] <= a[1..];
      PrefixComesFirst(p[1..], a[1..]);
      assert a == [a[0]] + a[1..] && p == [p[0]] + p[1..];
    }
  }

  lemma {:induction false} CommonPrefix(p: Oid, a: Oid, b: Oid)
    ensures Lt(p + a, p + b) == Lt(a, b)
  {
    if p == [] {
      assert p + a == a && p + b == b;
    } else {
      assert (p + a)[1..] == p[1..] + a && (p + b)[1..] == p[1..] + b;
      CommonPrefix(p[1..], a, b);
    }
  }

  /** A smaller prefix that the larger one does not extend puts its whole subtree below the other's. */
  lemma {:induction false} SubtreesApart(p: Oid, q: Oid, a: Oid, b: Oid)
    requires Lt(p, q) && !Under(p, q)
    ensures Lt(p + a, q + b)
  {
    assert p != [];
    assert (p + a)[1..] == p[1..] + a && (q + b)[1..] == q[1..] + b;
    if p[0] == q[0] {
      assert p == [p[0]] + p[1..] && q == [q[0]] + q[1..];
      SubtreesApart(p[1..], q[1..], a, b);
    }
  }

  /** Subtrees are intervals: whatever lies between two OIDs under `p` is under `p`. */
  lemma SubtreeConvex(p: Oid, a: Oid, b: Oid, c: Oid)
    requires Under(p, a) && Under(p, c) && Le(a, b) && Le(b, c)
    ensures Under(p, b)
  {
    PrefixComesFirst(p, a);
    LeTransitive(p, a, b);
    if !Under(p, b) {
      var k := c[|p|..];
      assert c == p + k && b == b + [];
      SubtreeBelowOutsider(p, b, k);
      LtAsymmetric(c, b);
    }
  }

  /** The same separation when the larger side is a single OID outside the subtree. */
  lemma SubtreeBelowOutsider(p: Oid, b: Oid, k: Oid)
    requires Le(p, b) && !Under(p, b)
    ensures Lt(p + k, b)
  {
    SubtreesApart(p, b, k, []);
    assert b + [] == b;
  }

  /** An OID below prefix `q` that is not an extension of it is below all of `q`'s subtree. */
  lemma BelowSubtree(a: Oid, q: Oid, k: Oid)
    requires Lt(a, q)
    ensures Lt(a, q + k)
  {
    PrefixComesFirst(q, q + k);
    LeTransitive(a, q, q + k);
  }

  // ----- sorted lists of OIDs: what `sorted` and `bisect_right` return -----

  predicate Ascending(s: seq<Oid>) {
    forall i, j :: 0 <= i < j < |s| ==> Le(s[i], s[j])
  }

  function Insert(x: Oid, s: seq<Oid>): seq<Oid> {
    if s == [] then [x]
    else if Lt(s[0], x) then [s[0]] + Insert(x, s[1..])
    else [x] + s
  }

  function Sort(s: seq<Oid>): seq<Oid> {
    if s == [] then [] else Insert(s[0], Sort(s[1..]))
  }

  lemma {:induction false} InsertKeeps(x: Oid, s: seq<Oid>)
    ensures multiset(Insert(x, s)) == multiset(s) + multiset{x}
  {
    if s != [] && Lt(s[0], x) {
      InsertKeeps(x, s[1..]);
      assert s == [s[0]] + s[1..];
    }
  }

  lemma {:induction false} InsertAscending(x: Oid, s: seq<Oid>)
    requires Ascending(s)
    ensures Ascending(Insert(x, s))
  {
    if s == [] {
    } else if Lt(s[0], x) {
      var t := Insert(x, s[1..]);
      InsertAscending(x, s[1..]);
      InsertKeeps(x, s[1..]);
      forall j | 0 <= j < |t| ensures Le(s[0], t[j]) {
        assert t[j] in multiset(t);
        assert t[j] == x || t[j] in s[1..];
      }
    } else {
      LtTotal(s[0], x);
      forall j | 0 <= j < |s| ensures Le(x, s[j]) {
        LeTransitive(x, s[0], s[j]);
      }
    }
  }

  /** `Sort` returns the ascending rearrangement of its argument. */
  lemma {:induction false} SortSorts(s: seq<Oid>)
    ensures Ascending(Sort(s)) && multiset(Sort(s)) == multiset(s)
    ensures forall x :: x in Sort(s) <==> x in s
  {
    if s != [] {
      assert s == [s[0]] + s[1..];
      SortSorts(s[1..]);
      InsertKeeps(s[0], Sort(s[1..]));
      InsertAscending(s[0], Sort(s[1..]));
    }
    forall x ensures x in Sort(s) <==> x in s {
      assert x in multiset(Sort(s)) <==> x in multiset(s);
    }
  }

  /** Index of the insertion point after every element not above `x`. */
  function BisectRight(s: seq<Oid>, x: Oid): (i: nat)
    ensures i <= |s|
  {
    if s == [] || Lt(x, s[0]) then 0 else 1 + BisectRight(s[1..], x)
  }

  lemma {:induction false} BisectRightSplits(s: seq<Oid>, x: Oid)
    requires Ascending(s)
    ensures forall k :: 0 <= k < BisectRight(s, x) ==> Le(s[k], x)
    ensures forall k :: BisectRight(s, x) <= k < |s| ==> Lt(x, s[k])
  {
    if s == [] {
    } else if Lt(x, s[0]) {
      forall k | 0 <= k < |s| ensures Lt(x, s[k]) {
        LeTransitive(x, s[0], s[k]);
      }
    } else {
      LtTotal(x, s[0]);
      BisectRightSplits(s[1..], x);
      var n := BisectRight(s[1..], x);
      forall k | n + 1 <= k < |s| ensures Lt(x, s[k]) {
        assert s[k] == s[1..][k - 1];
      }
    }
  }
}
