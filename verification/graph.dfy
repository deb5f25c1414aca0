/**
 The dependency graph of the concatenator: every fragment maps to the ordered list of
 fragments it requires (edge direction: dependent -> dependency, duplicates allowed).
 This module holds the graph vocabulary shared by the builder, the sorter and the cycle
 search: closedness, enumerations of the key set, walks, cycles and edge-respecting orders,
 together with the two facts that tie cycles to orders.
 */
module Graphs {

  type Graph<F> = map<F, seq<F>>

  /** Every edge target is itself a key, so no lookup of a target can miss. */
  predicate Closed<F(==,!new)>(g: Graph<F>) {
    forall k, i :: k in g && 0 <= i < |g[k]| ==> g[k][i] in g
  }

  /** No file requires anything. */
  predicate NoEdges<F(==)>(g: Graph<F>) {
    forall k :: k in g ==> g[k] == []
  }

  predicate Distinct<F(==,!new)>(s: seq<F>) {
    forall i, j :: 0 <= i < j < |s| ==> s[i] != s[j]
  }

  /** `order` lists every key of `g` exactly once (an iteration order of the map). */
  predicate Enumerates<F(==,!new)>(order: seq<F>, g: Graph<F>) {
    && Distinct(order)
    && (forall i :: 0 <= i < |order| ==> order[i] in g)
    && (forall k :: k in g ==> k in order)
  }

  /** A non-empty walk that follows edges: each element requires the next one. */
  ghost predicate IsWalk<F(!new)>(g: Graph<F>, p: seq<F>) {
    && |p| >= 1
    && (forall i :: 0 <= i < |p| ==> p[i] in g)
    && (forall i :: 0 <= i < |p| - 1 ==> p[i + 1] in g[p[i]])
  }

  ghost predicate Reaches<F(!new)>(g: Graph<F>, a: F, b: F) {
    exists p :: IsWalk(g, p) && p[0] == a && p[|p| - 1] == b
  }

  /** A walk of at least one edge that returns to its start. */
  ghost predicate IsCycle<F(!new)>(g: Graph<F>, p: seq<F>) {
    IsWalk(g, p) && |p| >= 2 && p[0] == p[|p| - 1]
  }

  ghost predicate OnCycle<F(!new)>(g: Graph<F>, c: F) {
    exists p :: IsCycle(g, p) && p[0] == c
  }

  ghost predicate HasCycle<F(!new)>(g: Graph<F>) {
    exists p :: IsCycle(g, p)
  }

  /** Dependents come first: for every edge s[i] -> s[j], index i is smaller than j. */
  ghost predicate DependentsFirst<F(!new)>(g: Graph<F>, s: seq<F>)
    requires forall i :: 0 <= i < |s| ==> s[i] in g
  {
    forall i, j :: 0 <= i < |s| && 0 <= j < |s| && s[j] in g[s[i]] ==> i < j
  }

  // ---------------------------------------------------------------------------
  // Cardinality facts about duplicate-free sequences

  function Elements<F(==,!new)>(s: seq<F>): (r: set<F>)
    ensures forall x :: x in r <==> x in s
  {
    set x | x in s
  }

  lemma {:induction false} DistinctElements<F(!new)>(s: seq<F>)
    requires Distinct(s)
    ensures |Elements(s)| == |s|
  {
    if s != [] {
      var t := s[..|s| - 1];
      var last := s[|s| - 1];
      assert Distinct(t);
      DistinctElements(t);
      assert last !in t;
      assert Elements(s) == Elements(t) + {last};
    }
  }

  lemma DistinctAppend<F(!new)>(s: seq<F>, x: F)
    requires Distinct(s) && x !in s
    ensures Distinct(s + [x])
  {
  }

  lemma {:induction false} SubsetCard<F(!new)>(a: set<F>, b: set<F>)
    requires a <= b
    ensures |a| <= |b|
    ensures |a| == |b| ==> a == b
    decreases |b|
  {
    if b != {} {
      var x :| x in b;
      SubsetCard(a - {x}, b - {x});
      if x in a {
        assert a == (a - {x}) + {x};
      } else {
        assert a == a - {x};
      }
    }
  }

  /** A duplicate-free sequence of keys is no longer than the key set, and covers it when as long. */
  lemma DistinctKeysBound<F(!new)>(s: seq<F>, g: Graph<F>)
    requires Distinct(s)
    requires forall i :: 0 <= i < |s| ==> s[i] in g
    ensures |s| <= |g|
    ensures |s| == |g| ==> forall k :: k in g ==> k in s
  {
    DistinctElements(s);
    assert Elements(s) <= g.Keys;
    SubsetCard(Elements(s), g.Keys);
  }

  /** A duplicate-free sequence that lists every key is exactly as long as the key set. */
  lemma EnumerationLength<F(!new)>(s: seq<F>, g: Graph<F>)
    requires Distinct(s)
    requires forall k :: k in g ==> k in s
    ensures |g| <= |s|
  {
    DistinctElements(s);
    assert g.Keys <= Elements(s);
    SubsetCard(g.Keys, Elements(s));
  }

  // ---------------------------------------------------------------------------
  // Walks

  lemma PrependWalk<F(!new)>(g: Graph<F>, a: F, p: seq<F>)
    requires IsWalk(g, p) && a in g && p[0] in g[a]
    ensures IsWalk(g, [a] + p)
  {
    var q := [a] + p;
    forall i | 0 <= i < |q| - 1
      ensures q[i + 1] in g[q[i]]
    {
      if i > 0 {
        assert q[i] == p[i - 1] && q[i + 1] == p[i];
      }
    }
  }

  lemma TailWalk<F(!new)>(g: Graph<F>, p: seq<F>)
    requires IsWalk(g, p) && |p| >= 2
    ensures IsWalk(g, p[1..])
  {
    var q := p[1..];
    forall i | 0 <= i < |q| - 1
      ensures q[i + 1] in g[q[i]]
    {
      assert q[i] == p[i + 1] && q[i + 1] == p[i + 2];
    }
  }

  lemma PrefixWalk<F(!new)>(g: Graph<F>, p: seq<F>, n: nat)
    requires IsWalk(g, p) && 1 <= n <= |p|
    ensures IsWalk(g, p[..n])
  {
    var q := p[..n];
    forall i | 0 <= i < |q| - 1
      ensures q[i + 1] in g[q[i]]
    {
      assert q[i] == p[i] && q[i + 1] == p[i + 1];
    }
  }

  // ---------------------------------------------------------------------------
  // Cycles versus orders

  /** Along a walk in a dependents-first order the positions strictly increase. */
  lemma {:induction false} WalkAdvances<F(!new)>(g: Graph<F>, s: seq<F>, p: seq<F>, i: nat, j: nat)
    requires forall k :: 0 <= k < |s| ==> s[k] in g
    requires DependentsFirst(g, s)
    requires IsWalk(g, p) && |p| >= 2
    requires i < |s| && j < |s| && s[i] == p[0] && s[j] == p[|p| - 1]
    requires forall k :: k in g ==> k in s
    ensures i < j
    decreases |p|
  {
    var m :| 0 <= m < |s| && s[m] == p[1];
    assert s[m] in g[s[i]];
    if |p| > 2 {
      TailWalk(g, p);
      WalkAdvances(g, s, p[1..], m, j);
    } else {
      assert s[j] in g[s[i]];
    }
  }

  /** A graph that admits a dependents-first ordering of all its keys has no cycle. */
  lemma OrderedIsAcyclic<F(!new)>(g: Graph<F>, s: seq<F>)
    requires forall k :: 0 <= k < |s| ==> s[k] in g
    requires forall k :: k in g ==> k in s
    requires DependentsFirst(g, s)
    ensures !HasCycle(g)
  {
    if p :| IsCycle(g, p) {
      var i :| 0 <= i < |s| && s[i] == p[0];
      WalkAdvances(g, s, p, i, i);
    }
  }

  /** Some member of `r` requires `y`. */
  ghost predicate RequiredWithin<F(!new)>(g: Graph<F>, r: set<F>, y: F)
    requires r <= g.Keys
  {
    exists a :: a in r && y in g[a]
  }

  /**
   If every member of a non-empty key set `r` is required by some member of `r`,
   walking backwards through `r` must revisit a node, closing a cycle.
   */
  lemma CycleFromPredecessors<F(!new)>(g: Graph<F>, r: set<F>)
    requires r != {} && r <= g.Keys
    requires forall y :: y in r ==> RequiredWithin(g, r, y)
    ensures HasCycle(g)
  {
    var y :| y in r;
    assert Elements([y]) == {y};
    SubsetCard({y}, r);
    BackWalk(g, r, [y]);
  }

  lemma {:induction false} BackWalk<F(!new)>(g: Graph<F>, r: set<F>, w: seq<F>)
    requires r <= g.Keys
    requires forall y :: y in r ==> RequiredWithin(g, r, y)
    requires IsWalk(g, w) && Distinct(w)
    requires forall i :: 0 <= i < |w| ==> w[i] in r
    requires |w| <= |r|
    ensures HasCycle(g)
    decreases |r| - |w|
  {
    var a :| a in r && w[0] in g[a];
    PrependWalk(g, a, w);
    var q := [a] + w;
    if j :| 0 <= j < |w| && w[j] == a {
      PrefixWalk(g, q, j + 2);
      assert IsCycle(g, q[..j + 2]);
    } else {
      assert Distinct(q) by {
        forall i, k | 0 <= i < k < |q|
          ensures q[i] != q[k]
        {
          if i > 0 {
            assert q[i] == w[i - 1] && q[k] == w[k - 1];
          } else {
            assert q[k] == w[k - 1];
          }
        }
      }
      DistinctElements(q);
      assert Elements(q) <= r;
      SubsetCard(Elements(q), r);
      BackWalk(g, r, q);
    }
  }
}
