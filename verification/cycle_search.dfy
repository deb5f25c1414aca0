/**
 The diagnostic cycle search run when the sort fails.

 `HasCycleFrom` is the recursive depth-first search of the source: its `visited` set is the
 current path, a file is added on entry and removed again when none of its dependencies
 leads to a hit. Java mutates one shared set; here the search returns the set it leaves
 behind together with its verdict. `DetectCycle` starts a fresh search from each key in
 turn and stops at the first hit.
 */
module CycleSearch {
  import opened Wrappers
  import opened Graphs

  /** The verdict of a search and the `visited` set as the search leaves it. */
  datatype Search<F> = Search(found: bool, visited: set<F>)

  /** What the reporter prints: the key whose search hit, and the path set left behind. */
  datatype CycleReport<F> = CycleReport(start: F, path: set<F>)

  function HasCycleFrom<F(==,!new)>(g: Graph<F>, file: F, visited: set<F>): (r: Search<F>)
    requires Closed(g) && file in g && visited <= g.Keys
    ensures visited <= r.visited <= g.Keys
    ensures !r.found ==> r.visited == visited
    ensures r.found ==> file in r.visited
    decreases |g.Keys - visited|, 0
  {
    if file in visited then Search(true, visited)
    else
      assert g.Keys - visited == (g.Keys - (visited + {file})) + {file};
      var r := HasCycleAmong(g, g[file], visited + {file});
      if r.found then r else Search(false, r.visited - {file})
  }

  /** The loop over one file's dependencies: the first dependency whose search hits wins. */
  function HasCycleAmong<F(==,!new)>(g: Graph<F>, deps: seq<F>, visited: set<F>): (r: Search<F>)
    requires Closed(g) && visited <= g.Keys
    requires forall i :: 0 <= i < |deps| ==> deps[i] in g
    ensures visited <= r.visited <= g.Keys
    ensures !r.found ==> r.visited == visited
    decreases |g.Keys - visited|, |deps| + 1
  {
    if deps == [] then Search(false, visited)
    else
      var r := HasCycleFrom(g, deps[0], visited);
      if r.found then r else HasCycleAmong(g, deps[1..], r.visited)
  }

  /**
   What the search from `file` with path set `visited` is meant to find: a walk from
   `file` into the current path, or a walk from `file` to a node that lies on a cycle.
   */
  ghost predicate Finds<F(!new)>(g: Graph<F>, file: F, visited: set<F>) {
    || (exists x :: x in visited && Reaches(g, file, x))
    || (exists c :: Reaches(g, file, c) && OnCycle(g, c))
  }

  /** Because a miss restores the path set, the dependency loop is a plain "some dependency hits". */
  lemma {:induction false} HasCycleAmongIsAny<F(!new)>(g: Graph<F>, deps: seq<F>, visited: set<F>)
    requires Closed(g) && visited <= g.Keys
    requires forall i :: 0 <= i < |deps| ==> deps[i] in g
    ensures HasCycleAmong(g, deps, visited).found
        <==> exists i :: 0 <= i < |deps| && HasCycleFrom(g, deps[i], visited).found
  {
    if deps != [] {
      HasCycleAmongIsAny(g, deps[1..], visited);
      assert forall i :: 1 <= i < |deps| ==> deps[i] == deps[1..][i - 1];
    }
  }

  /** One step forward: a hit from a dependency is a hit from its dependent. */
  lemma StepFinds<F(!new)>(g: Graph<F>, file: F, d: F, visited: set<F>)
    requires file in g && d in g[file]
    requires Finds(g, d, visited + {file})
    ensures Finds(g, file, visited)
  {
    assert Reaches(g, file, file) by {
      assert IsWalk(g, [file]);
    }
    if x :| x in visited + {file} && Reaches(g, d, x) {
      var p :| IsWalk(g, p) && p[0] == d && p[|p| - 1] == x;
      PrependWalk(g, file, p);
      var q := [file] + p;
      assert q[|q| - 1] == x;
      if x == file {
        assert IsCycle(g, q);
      } else {
        assert Reaches(g, file, x);
      }
    } else {
      var c :| Reaches(g, d, c) && OnCycle(g, c);
      var p :| IsWalk(g, p) && p[0] == d && p[|p| - 1] == c;
      PrependWalk(g, file, p);
      var q := [file] + p;
      assert q[|q| - 1] == c;
      assert Reaches(g, file, c);
    }
  }

  /** One step back: a hit from a file off the path is a hit from one of its dependencies. */
  lemma StepBackFinds<F(!new)>(g: Graph<F>, file: F, visited: set<F>) returns (d: F)
    requires file in g && file !in visited
    requires Finds(g, file, visited)
    ensures d in g[file]
    ensures Finds(g, d, visited + {file})
  {
    if x :| x in visited && Reaches(g, file, x) {
      var p :| IsWalk(g, p) && p[0] == file && p[|p| - 1] == x;
      TailWalk(g, p);
      d := p[1];
      assert p[1..][|p[1..]| - 1] == x;
    } else {
      var c :| Reaches(g, file, c) && OnCycle(g, c);
      var p :| IsWalk(g, p) && p[0] == file && p[|p| - 1] == c;
      if |p| >= 2 {
        TailWalk(g, p);
        d := p[1];
        assert p[1..][|p[1..]| - 1] == c;
        assert Reaches(g, d, c);
      } else {
        var q :| IsCycle(g, q) && q[0] == c;
        TailWalk(g, q);
        d := q[1];
        assert q[1..][|q[1..]| - 1] == file;
        assert Reaches(g, d, file);
      }
    }
  }

  /** The search hits exactly when a walk from `file` enters the current path or reaches a cycle. */
  lemma {:induction false} HasCycleFromFinds<F(!new)>(g: Graph<F>, file: F, visited: set<F>)
    requires Closed(g) && file in g && visited <= g.Keys
    ensures HasCycleFrom(g, file, visited).found <==> Finds(g, file, visited)
    decreases |g.Keys - visited|
  {
    if file in visited {
      assert IsWalk(g, [file]);
      assert Reaches(g, file, file);
    } else {
      var v := visited + {file};
      assert g.Keys - visited == (g.Keys - v) + {file};
      var deps := g[file];
      HasCycleAmongIsAny(g, deps, v);
      forall i | 0 <= i < |deps|
        ensures HasCycleFrom(g, deps[i], v).found <==> Finds(g, deps[i], v)
      {
        HasCycleFromFinds(g, deps[i], v);
      }
      if HasCycleFrom(g, file, visited).found {
        var i :| 0 <= i < |deps| && HasCycleFrom(g, deps[i], v).found;
        StepFinds(g, file, deps[i], visited);
      }
      if Finds(g, file, visited) {
        var d := StepBackFinds(g, file, visited);
        var i :| 0 <= i < |deps| && deps[i] == d;
        assert HasCycleFrom(g, deps[i], v).found;
      }
    }
  }

  /** From a fresh path set, the search hits exactly when some node reachable from `file` lies on a cycle. */
  lemma FreshSearch<F(!new)>(g: Graph<F>, file: F)
    requires Closed(g) && file in g
    ensures HasCycleFrom(g, file, {}).found <==> exists c :: Reaches(g, file, c) && OnCycle(g, c)
  {
    HasCycleFromFinds(g, file, {});
  }

  /**
   Tries each key in `order` (the map's iteration order) with a fresh path set and reports
   the first hit. A report is produced exactly when the graph has a cycle.
   */
  method DetectCycle<F(==,!new)>(g: Graph<F>, order: seq<F>) returns (report: Option<CycleReport<F>>)
    requires Closed(g) && Enumerates(order, g)
    ensures report.None? <==> !HasCycle(g)
    ensures report.Some? ==> exists k ::
      && 0 <= k < |order|
      && order[k] == report.value.start
      && (forall i :: 0 <= i < k ==> !HasCycleFrom(g, order[i], {}).found)
    ensures report.Some? ==> report.value.path == HasCycleFrom(g, report.value.start, {}).visited
    ensures report.Some? ==> report.value.start in report.value.path && report.value.path <= g.Keys
    ensures report.Some? ==> exists c :: Reaches(g, report.value.start, c) && OnCycle(g, c)
  {
    var k := 0;
    while k < |order|
      invariant 0 <= k <= |order|
      invariant forall i :: 0 <= i < k ==> !HasCycleFrom(g, order[i], {}).found
    {
      var r := HasCycleFrom(g, order[k], {});
      if r.found {
        FreshSearch(g, order[k]);
        ghost var c :| Reaches(g, order[k], c) && OnCycle(g, c);
        assert HasCycle(g);
        return Some(CycleReport(order[k], r.visited));
      }
      k := k + 1;
    }
    if p :| IsCycle(g, p) {
      var i :| 0 <= i < |order| && order[i] == p[0];
      assert IsWalk(g, [p[0]]);
      assert Reaches(g, p[0], p[0]);
      FreshSearch(g, p[0]);
      assert false;
    }
    return None;
  }
}
