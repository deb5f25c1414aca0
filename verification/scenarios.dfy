/**
 Small concrete graphs and lines that pin down the direction of the order, the cycle
 verdict and the greedy directive capture.
 */
module Scenarios {
  import opened Wrappers
  import opened Graphs
  import Directive
  import Build

  /** Three fragments. */
  datatype Fragment = A | B | C

  /** A requires B, B requires C. */
  function Chain(): (g: Graph<Fragment>)
    ensures Closed(g) && g.Keys == {A, B, C}
  {
    map[A := [B], B := [C], C := []]
  }

  /** The only dependents-first ordering of the chain is [A, B, C]: every file before what it requires. */
  lemma ChainOrder(s: seq<Fragment>)
    requires Enumerates(s, Chain())
    requires DependentsFirst(Chain(), s)
    ensures s == [A, B, C]
  {
    var g := Chain();
    assert |g| == 3 by {
      assert g.Keys == {A, B, C};
    }
    DistinctKeysBound(s, g);
    EnumerationLength(s, g);
    assert A in s && B in s && C in s;
    var i :| 0 <= i < |s| && s[i] == A;
    var j :| 0 <= j < |s| && s[j] == B;
    var k :| 0 <= k < |s| && s[k] == C;
    assert s[j] in g[s[i]];
    assert s[k] in g[s[j]];
    assert i == 0 && j == 1 && k == 2;
  }

  /** A requires B and B requires A: the graph is cyclic, so the sort yields no order. */
  lemma MutualRequireIsCyclic()
    ensures HasCycle(map[A := [B], B := [A]])
  {
    var g := map[A := [B], B := [A]];
    var p := [A, B, A];
    assert IsWalk(g, p);
    assert IsCycle(g, p);
  }

  /** The greedy group runs to the last closing marker, so it may contain `'*` itself. */
  lemma GreedyCapture()
    ensures Directive.RequiredPath("*require 'a.txt'* and 'b.txt'*") == Some("a.txt'* and 'b.txt")
  {
    var line := "*require 'a.txt'* and 'b.txt'*";
    assert Directive.OpensAt(line, 0);
    assert Directive.ClosesAt(line, |line| - 2);
    assert Directive.LastClosing(line, 11, |line|) == Some(|line| - 2) by {
      assert !Directive.ClosesAt(line, |line| - 1);
    }
    assert line[10..|line| - 2] == "a.txt'* and 'b.txt";
  }

  /** A line with an opening marker but an empty group holds no directive. */
  lemma EmptyGroupIsNoDirective()
    ensures Directive.RequiredPath("*require ''*").None?
  {
    var line := "*require ''*";
    forall a, b
      ensures !Directive.MatchAt(line, a, b)
    {
    }
  }

  /** A directive naming an undiscovered file adds no edge: the fragment's list stays empty. */
  lemma MissingTargetDropped(files: seq<string>, root: string, resolve: (string, string) -> string)
    requires resolve(root, "missing") !in files
    ensures Build.FileDependencies(["*require 'missing'*"], files, root, resolve) == []
  {
    var line := "*require 'missing'*";
    assert Directive.OpensAt(line, 0);
    assert Directive.ClosesAt(line, |line| - 2);
    assert Directive.LastClosing(line, 11, |line|) == Some(|line| - 2) by {
      assert !Directive.ClosesAt(line, |line| - 1);
    }
    assert line[10..|line| - 2] == "missing";
    assert Directive.RequiredPath(line) == Some("missing");
    assert ["*require 'missing'*"][1..] == [];
  }
}
