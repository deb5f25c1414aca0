/**
 Kahn's algorithm over the dependency map, as the source runs it.

 Edges run from a file to the files it requires, so the in-degree of a file is the number
 of edge occurrences naming it as a target, and the queue is seeded with the files nobody
 requires. Every dequeued file is emitted and then releases its own targets. Consequently
 a file is emitted BEFORE every file it requires (dependents first).

 Both iteration orders of Java hash maps that the source relies on are parameters:
 `order` enumerates the dependency map (its `values()` while counting in-degrees and its
 `keySet()` in the cycle report), `seedOrder` enumerates the in-degree map while the queue
 is seeded. Every property below holds for every pair of enumerations.
 */
module TopoSort {
  import opened Wrappers
  import opened Graphs
  import CycleSearch

  /** The multiset of edge targets of the files in `order` that are not in `done`. */
  function Targets<F(==)>(g: Graph<F>, order: seq<F>, done: set<F>): multiset<F>
    requires forall i :: 0 <= i < |order| ==> order[i] in g
  {
    if order == [] then multiset{}
    else
      var last := order[|order| - 1];
      Targets(g, order[..|order| - 1], done) + (if last in done then multiset{} else multiset(g[last]))
  }

  /** A file outside `order` contributes nothing, whether or not it counts as done. */
  lemma {:induction false} TargetsIgnoresAbsent<F>(g: Graph<F>, order: seq<F>, done: set<F>, f: F)
    requires forall i :: 0 <= i < |order| ==> order[i] in g
    requires f !in order
    ensures Targets(g, order, done + {f}) == Targets(g, order, done)
  {
    if order != [] {
      TargetsIgnoresAbsent(g, order[..|order| - 1], done, f);
    }
  }

  /** Marking one not-yet-done file as done removes exactly that file's edge targets. */
  lemma {:induction false} TargetsEmit<F(!new)>(g: Graph<F>, order: seq<F>, done: set<F>, f: F)
    requires forall i :: 0 <= i < |order| ==> order[i] in g
    requires Distinct(order) && f in order && f !in done
    ensures Targets(g, order, done) == Targets(g, order, done + {f}) + multiset(g[f])
  {
    var init := order[..|order| - 1];
    var last := order[|order| - 1];
    assert Distinct(init);
    if last == f {
      assert f !in init;
      TargetsIgnoresAbsent(g, init, done, f);
    } else {
      assert f in init by {
        var i :| 0 <= i < |order| && order[i] == f;
        assert i < |order| - 1 && init[i] == f;
      }
      TargetsEmit(g, init, done, f);
    }
  }

  /** A file's count is zero exactly when no file of `order` outside `done` requires it. */
  lemma {:induction false} TargetsZero<F>(g: Graph<F>, order: seq<F>, done: set<F>, x: F)
    requires forall i :: 0 <= i < |order| ==> order[i] in g
    ensures Targets(g, order, done)[x] == 0
        <==> forall i :: 0 <= i < |order| && order[i] !in done ==> x !in g[order[i]]
  {
    if order != [] {
      var init := order[..|order| - 1];
      TargetsZero(g, init, done, x);
      assert forall i :: 0 <= i < |init| ==> init[i] == order[i];
    }
  }

  /** A file whose count is zero is required by no file outside `done`. */
  lemma RequirersDone<F(!new)>(g: Graph<F>, order: seq<F>, done: set<F>, file: F)
    requires Enumerates(order, g)
    requires Targets(g, order, done)[file] == 0
    ensures forall a :: a in g && file in g[a] ==> a in done
  {
    TargetsZero(g, order, done, file);
    forall a | a in g && file in g[a]
      ensures a in done
    {
      var i :| 0 <= i < |order| && order[i] == a;
    }
  }

  /**
   When no file is at zero any more but some remain, every remaining file is required by
   another remaining file, so the remaining files contain a cycle.
   */
  lemma StuckMeansCycle<F(!new)>(g: Graph<F>, order: seq<F>, done: set<F>, out: seq<F>)
    requires Enumerates(order, g)
    requires Distinct(out) && |out| != |g|
    requires forall i :: 0 <= i < |out| ==> out[i] in g
    requires forall x :: x in out <==> x in done
    requires forall x :: x in g && x !in done ==> Targets(g, order, done)[x] != 0
    ensures HasCycle(g)
  {
    DistinctKeysBound(out, g);
    if g.Keys <= done {
      EnumerationLength(out, g);
    }
    var rest := g.Keys - done;
    var k :| k in g && k !in done;
    assert k in rest;
    forall y | y in rest
      ensures RequiredWithin(g, rest, y)
    {
      TargetsZero(g, order, done, y);
      var i :| 0 <= i < |order| && order[i] !in done && y in g[order[i]];
      assert order[i] in rest;
    }
    CycleFromPredecessors(g, rest);
  }

  /** The inner counting loop: each occurrence of a file in `deps` adds one to its count. */
  method AddOccurrences<F(==)>(inDegree: map<F, int>, deps: seq<F>) returns (r: map<F, int>)
    requires forall i :: 0 <= i < |deps| ==> deps[i] in inDegree
    ensures r.Keys == inDegree.Keys
    ensures forall x :: x in r ==> r[x] == inDegree[x] + multiset(deps)[x]
  {
    r := inDegree;
    var j := 0;
    while j < |deps|
      invariant 0 <= j <= |deps|
      invariant r.Keys == inDegree.Keys
      invariant forall x :: x in r ==> r[x] == inDegree[x] + multiset(deps[..j])[x]
    {
      assert deps[..j + 1] == deps[..j] + [deps[j]];
      r := r[deps[j] := r[deps[j]] + 1];
      j := j + 1;
    }
    assert deps[..j] == deps;
  }

  /**
   The counting loops of the source: every key starts at zero, then every occurrence of a
   file in any dependency list adds one.
   */
  method CountInDegrees<F(==,!new)>(g: Graph<F>, order: seq<F>) returns (inDegree: map<F, int>)
    requires Closed(g) && Enumerates(order, g)
    ensures inDegree.Keys == g.Keys
    ensures forall x :: x in g ==> inDegree[x] == Targets(g, order, {})[x]
  {
    inDegree := map k | k in g :: 0;
    var i := 0;
    while i < |order|
      invariant 0 <= i <= |order|
      invariant inDegree.Keys == g.Keys
      invariant forall x :: x in g ==> inDegree[x] == Targets(g, order[..i], {})[x]
    {
      inDegree := AddOccurrences(inDegree, g[order[i]]);
      assert order[..i + 1][..i] == order[..i];
      i := i + 1;
    }
    assert order[..i] == order;
  }

  /**
   The queue seeding: the files, in `seedOrder`, whose count is zero, i.e. the files nobody
   requires.
   */
  method SeedQueue<F(==,!new)>(inDegree: map<F, int>, seedOrder: seq<F>) returns (queue: seq<F>)
    requires Distinct(seedOrder)
    requires forall i :: 0 <= i < |seedOrder| ==> seedOrder[i] in inDegree
    ensures Distinct(queue)
    ensures forall i :: 0 <= i < |queue| ==> queue[i] in seedOrder
    ensures forall x :: x in inDegree ==> (x in queue <==> x in seedOrder && inDegree[x] == 0)
    ensures InOrderOf(queue, seedOrder)
    ensures (forall i :: 0 <= i < |seedOrder| ==> inDegree[seedOrder[i]] == 0) ==> queue == seedOrder
  {
    queue := [];
    var s := 0;
    while s < |seedOrder|
      invariant 0 <= s <= |seedOrder|
      invariant Distinct(queue)
      invariant forall i :: 0 <= i < |queue| ==> queue[i] in seedOrder[..s]
      invariant forall x :: x in inDegree ==> (x in queue <==> x in seedOrder[..s] && inDegree[x] == 0)
      invariant InOrderOf(queue, seedOrder)
      invariant (forall i :: 0 <= i < |seedOrder| ==> inDegree[seedOrder[i]] == 0) ==> queue == seedOrder[..s]
    {
      var file := seedOrder[s];
      assert seedOrder[..s + 1] == seedOrder[..s] + [file];
      assert file !in seedOrder[..s];
      if inDegree[file] == 0 {
        AppendKeepsOrder(queue, seedOrder, s);
        queue := queue + [file];
      }
      s := s + 1;
    }
    assert seedOrder[..s] == seedOrder;
  }

  /** `x` occurs in `s` before `y`. */
  ghost predicate Precedes<F(!new)>(s: seq<F>, x: F, y: F) {
    exists a, b :: 0 <= a < b < |s| && s[a] == x && s[b] == y
  }

  /** Any two elements of `q` occur in `s` in the same relative order. */
  ghost predicate InOrderOf<F(!new)>(q: seq<F>, s: seq<F>) {
    forall i, j :: 0 <= i < j < |q| ==> Precedes(s, q[i], q[j])
  }

  /** Appending `s[k]` behind elements all taken from `s[..k]` keeps the relative order of `s`. */
  lemma AppendKeepsOrder<F(!new)>(q: seq<F>, s: seq<F>, k: int)
    requires 0 <= k < |s|
    requires InOrderOf(q, s)
    requires forall i :: 0 <= i < |q| ==> q[i] in s[..k]
    ensures InOrderOf(q + [s[k]], s)
  {
    var q' := q + [s[k]];
    forall i, j | 0 <= i < j < |q'|
      ensures Precedes(s, q'[i], q'[j])
    {
      if j < |q| {
        assert q'[i] == q[i] && q'[j] == q[j];
      } else {
        var a :| 0 <= a < k && s[..k][a] == q[i];
        assert s[a] == q'[i] && s[k] == q'[j];
      }
    }
  }

  /** One decrement of the release loop; a target reaching zero is enqueued. */
  method ReleaseOne<F(==,!new)>(inDegree: map<F, int>, dep: F, queue: seq<F>, out: seq<F>)
    returns (inDegree': map<F, int>, queue': seq<F>)
    requires dep in inDegree && inDegree[dep] >= 1
    requires Distinct(queue)
    requires forall i :: 0 <= i < |queue| ==> queue[i] in inDegree && queue[i] !in out
    requires forall x :: x in inDegree ==> ((x in out || x in queue) <==> inDegree[x] == 0)
    ensures inDegree'.Keys == inDegree.Keys
    ensures inDegree'[dep] == inDegree[dep] - 1
    ensures forall x :: x in inDegree && x != dep ==> inDegree'[x] == inDegree[x]
    ensures Distinct(queue') && |queue| <= |queue'| <= |queue| + 1 && queue'[..|queue|] == queue
    ensures forall i :: 0 <= i < |queue'| ==> queue'[i] in inDegree && queue'[i] !in out
    ensures forall x :: x in inDegree' ==> ((x in out || x in queue') <==> inDegree'[x] == 0)
  {
    assert dep !in queue && dep !in out;
    inDegree' := inDegree[dep := inDegree[dep] - 1];
    queue' := queue;
    if inDegree'[dep] == 0 {
      DistinctAppend(queue, dep);
      queue' := queue + [dep];
      assert queue'[..|queue|] == queue;
    }
  }

  /** Extending a prefix by one element adds that element once, and a prefix counts no more than the whole. */
  lemma PrefixCount<F>(s: seq<F>, j: int)
    requires 0 <= j < |s|
    ensures multiset(s[..j + 1]) == multiset(s[..j]) + multiset{s[j]}
    ensures multiset(s)[s[j]] >= multiset(s[..j + 1])[s[j]]
  {
    assert s[..j + 1] == s[..j] + [s[j]];
    assert s == s[..j + 1] + s[j + 1..];
  }

  lemma PrefixOfPrefix<F>(q0: seq<F>, q1: seq<F>, q2: seq<F>)
    requires |q0| <= |q1| <= |q2| && q1[..|q0|] == q0 && q2[..|q1|] == q1
    ensures q2[..|q0|] == q0
  {
    assert q2[..|q0|] == q2[..|q1|][..|q0|];
  }

  /**
   The release step for one dequeued file: each occurrence of a target in `deps` takes one
   off its count, and a target whose count reaches zero joins the back of the queue.
   Files that are emitted or queued are exactly those at zero, before and after.
   */
  method Release<F(==,!new)>(inDegree: map<F, int>, deps: seq<F>, queue: seq<F>, out: seq<F>)
    returns (inDegree': map<F, int>, queue': seq<F>)
    requires forall i :: 0 <= i < |deps| ==> deps[i] in inDegree
    requires forall x :: x in inDegree ==> inDegree[x] >= multiset(deps)[x]
    requires Distinct(queue)
    requires forall i :: 0 <= i < |queue| ==> queue[i] in inDegree && queue[i] !in out
    requires forall x :: x in inDegree ==> ((x in out || x in queue) <==> inDegree[x] == 0)
    ensures inDegree'.Keys == inDegree.Keys
    ensures forall x :: x in inDegree' ==> inDegree'[x] == inDegree[x] - multiset(deps)[x]
    ensures Distinct(queue') && |queue| <= |queue'| <= |queue| + |deps| && queue'[..|queue|] == queue
    ensures forall i :: 0 <= i < |queue'| ==> queue'[i] in inDegree && queue'[i] !in out
    ensures forall x :: x in inDegree' ==> ((x in out || x in queue') <==> inDegree'[x] == 0)
  {
    inDegree' := inDegree;
    queue' := queue;
    var j := 0;
    while j < |deps|
      invariant 0 <= j <= |deps|
      invariant inDegree'.Keys == inDegree.Keys
      invariant forall x :: x in inDegree' ==> inDegree'[x] == inDegree[x] - multiset(deps[..j])[x]
      invariant Distinct(queue') && |queue| <= |queue'| <= |queue| + j && queue'[..|queue|] == queue
      invariant forall i :: 0 <= i < |queue'| ==> queue'[i] in inDegree && queue'[i] !in out
      invariant forall x :: x in inDegree' ==> ((x in out || x in queue') <==> inDegree'[x] == 0)
    {
      var dep := deps[j];
      PrefixCount(deps, j);
      ghost var before := queue';
      inDegree', queue' := ReleaseOne(inDegree', dep, queue', out);
      PrefixOfPrefix(queue, before, queue');
      j := j + 1;
    }
    assert deps[..j] == deps;
  }

  /**
   The state the main loop of Kahn's algorithm keeps: counts are the edge occurrences into
   each file from files not yet emitted; emitted and queued files are distinct keys, and
   they are exactly the files at zero; every emitted file follows all files requiring it.
   */
  ghost predicate KahnState<F(!new)>(g: Graph<F>, order: seq<F>, inDegree: map<F, int>,
                                      queue: seq<F>, out: seq<F>, emitted: set<F>)
  {
    && Bookkeeping(g, order, inDegree, queue, out, emitted)
    && (forall x :: x in g ==> inDegree[x] == Targets(g, order, emitted)[x])
  }

  /**
   What holds at every point of the main loop, whatever the counts are: emitted and queued
   files are disjoint, duplicate-free keys, exactly the files at zero, and every emitted
   file follows all files requiring it.
   */
  ghost predicate Bookkeeping<F(!new)>(g: Graph<F>, order: seq<F>, inDegree: map<F, int>,
                                        queue: seq<F>, out: seq<F>, emitted: set<F>)
  {
    && Closed(g) && Enumerates(order, g)
    && inDegree.Keys == g.Keys
    && (forall x :: x in out <==> x in emitted)
    && Distinct(out) && Distinct(queue)
    && (forall i :: 0 <= i < |out| ==> out[i] in g)
    && (forall i :: 0 <= i < |queue| ==> queue[i] in g && queue[i] !in out)
    && (forall x :: x in g ==> ((x in out || x in queue) <==> inDegree[x] == 0))
    && DependentsEmittedFirst(g, out)
  }

  /** Every emitted file comes after all files that require it. */
  ghost predicate DependentsEmittedFirst<F(!new)>(g: Graph<F>, out: seq<F>) {
    forall k, a :: 0 <= k < |out| && a in g && out[k] in g[a] ==> a in out[..k]
  }

  /** Counts that track `t' + d` are at least the counts of `d`. */
  lemma CountsCover<F>(m: map<F, int>, t: multiset<F>, t': multiset<F>, d: multiset<F>)
    requires t == t' + d
    requires forall x :: x in m ==> m[x] == t[x]
    ensures forall x :: x in m ==> m[x] >= d[x] && m[x] - d[x] == t'[x]
  {
  }

  /** Taking `d` off counts that track `t' + d` leaves counts that track `t'`. */
  lemma CountsSubtract<F>(m: map<F, int>, m': map<F, int>, t': multiset<F>, d: multiset<F>)
    requires m'.Keys == m.Keys
    requires forall x :: x in m ==> m[x] - d[x] == t'[x]
    requires forall x :: x in m' ==> m'[x] == m[x] - d[x]
    ensures forall x :: x in m' ==> m'[x] == t'[x]
  {
  }

  lemma EmitKeepsOrder<F(!new)>(g: Graph<F>, out: seq<F>, file: F)
    requires DependentsEmittedFirst(g, out)
    requires forall a :: a in g && file in g[a] ==> a in out
    ensures DependentsEmittedFirst(g, out + [file])
  {
    var out' := out + [file];
    forall k, a | 0 <= k < |out'| && a in g && out'[k] in g[a]
      ensures a in out'[..k]
    {
      if k < |out| {
        assert out'[..k] == out[..k];
      } else {
        assert out'[..k] == out;
      }
    }
  }

  /**
   The state between emitting the head of the queue and releasing its targets: the counts
   still include the emitted file's own edges, which are about to be taken off.
   */
  ghost predicate EmittedState<F(!new)>(g: Graph<F>, order: seq<F>, inDegree: map<F, int>,
                                        file: F, queue: seq<F>, out: seq<F>, emitted: set<F>)
  {
    && file in g
    && Bookkeeping(g, order, inDegree, queue, out, emitted)
    && (forall x :: x in g ==> inDegree[x] >= multiset(g[file])[x])
    && (forall x :: x in g ==> inDegree[x] - multiset(g[file])[x] == Targets(g, order, emitted)[x])
  }

  /** Moving the head of the queue to the output keeps everything but the counts of its targets. */
  lemma EmitHead<F(!new)>(g: Graph<F>, order: seq<F>, inDegree: map<F, int>,
                          queue: seq<F>, out: seq<F>, emitted: set<F>)
    requires KahnState(g, order, inDegree, queue, out, emitted)
    requires queue != []
    ensures EmittedState(g, order, inDegree, queue[0], queue[1..], out + [queue[0]], emitted + {queue[0]})
  {
    var file := queue[0];
    assert inDegree[file] == 0;
    RequirersDone(g, order, emitted, file);
    TargetsEmit(g, order, emitted, file);
    EmitKeepsOrder(g, out, file);
    MoveHead(g, inDegree, queue, out);
    CountsCover(inDegree, Targets(g, order, emitted), Targets(g, order, emitted + {file}), multiset(g[file]));
  }

  /** Moving the head of a queue of distinct fresh keys to the output keeps both duplicate-free and disjoint. */
  lemma MoveHead<F(!new)>(g: Graph<F>, inDegree: map<F, int>, queue: seq<F>, out: seq<F>)
    requires queue != [] && inDegree.Keys == g.Keys
    requires Distinct(out) && Distinct(queue)
    requires forall i :: 0 <= i < |out| ==> out[i] in g
    requires forall i :: 0 <= i < |queue| ==> queue[i] in g && queue[i] !in out
    requires forall x :: x in g ==> ((x in out || x in queue) <==> inDegree[x] == 0)
    ensures Distinct(out + [queue[0]]) && Distinct(queue[1..])
    ensures forall i :: 0 <= i < |out + [queue[0]]| ==> (out + [queue[0]])[i] in g
    ensures forall i :: 0 <= i < |queue[1..]| ==> queue[1..][i] in g && queue[1..][i] !in out + [queue[0]]
    ensures forall x :: x in g ==> ((x in out + [queue[0]] || x in queue[1..]) <==> inDegree[x] == 0)
  {
    var file := queue[0];
    var rest := queue[1..];
    assert forall i :: 0 <= i < |rest| ==> rest[i] == queue[i + 1];
    DistinctAppend(out, file);
    assert forall x :: x in queue <==> x == file || x in rest;
  }

  /** One turn of the main loop: dequeue the head, emit it, release its targets. */
  method Dequeue<F(==,!new)>(g: Graph<F>, order: seq<F>, inDegree: map<F, int>, queue: seq<F>,
                             out: seq<F>, ghost emitted: set<F>)
    returns (inDegree': map<F, int>, queue': seq<F>, out': seq<F>, ghost emitted': set<F>)
    requires KahnState(g, order, inDegree, queue, out, emitted)
    requires queue != []
    ensures KahnState(g, order, inDegree', queue', out', emitted')
    ensures out' == out + [queue[0]] && |out'| <= |g|
    ensures NoEdges(g) ==> out' + queue' == out + queue
  {
    var file := queue[0];
    EmitHead(g, order, inDegree, queue, out, emitted);
    out' := out + [file];
    emitted' := emitted + {file};
    inDegree', queue' := Release(inDegree, g[file], queue[1..], out');
    CountsSubtract(inDegree, inDegree', Targets(g, order, emitted'), multiset(g[file]));
    DistinctKeysBound(out', g);
    if NoEdges(g) {
      assert g[file] == [];
      assert queue' == queue[1..];
      ShiftHead(out, queue, queue');
    }
  }

  lemma ShiftHead<F>(out: seq<F>, queue: seq<F>, queue': seq<F>)
    requires queue != [] && queue' == queue[1..]
    ensures (out + [queue[0]]) + queue' == out + queue
  {
    assert queue == [queue[0]] + queue[1..];
  }

  /** After seeding, the loop state holds with nothing emitted yet. */
  lemma SeededState<F(!new)>(g: Graph<F>, order: seq<F>, seedOrder: seq<F>, inDegree: map<F, int>, queue: seq<F>)
    requires Closed(g) && Enumerates(order, g) && Enumerates(seedOrder, g)
    requires inDegree.Keys == g.Keys
    requires forall x :: x in g ==> inDegree[x] == Targets(g, order, {})[x]
    requires Distinct(queue)
    requires forall i :: 0 <= i < |queue| ==> queue[i] in seedOrder
    requires forall x :: x in inDegree ==> (x in queue <==> x in seedOrder && inDegree[x] == 0)
    ensures KahnState(g, order, inDegree, queue, [], {})
  {
  }

  /** Without edges every count starts at zero. */
  lemma NoEdgesAllZero<F(!new)>(g: Graph<F>, order: seq<F>, seedOrder: seq<F>, inDegree: map<F, int>)
    requires Enumerates(order, g) && NoEdges(g) && inDegree.Keys == g.Keys
    requires forall i :: 0 <= i < |seedOrder| ==> seedOrder[i] in g
    requires forall x :: x in g ==> inDegree[x] == Targets(g, order, {})[x]
    ensures forall i :: 0 <= i < |seedOrder| ==> inDegree[seedOrder[i]] == 0
  {
    forall i | 0 <= i < |seedOrder|
      ensures inDegree[seedOrder[i]] == 0
    {
      TargetsZero(g, order, {}, seedOrder[i]);
    }
  }

  /**
   When the queue runs dry, either every key was emitted, dependents first, and the graph
   is acyclic, or some key was never emitted and the graph has a cycle.
   */
  lemma DrainedState<F(!new)>(g: Graph<F>, order: seq<F>, inDegree: map<F, int>, out: seq<F>, emitted: set<F>)
    requires KahnState(g, order, inDegree, [], out, emitted)
    ensures |out| <= |g|
    ensures |out| == |g| <==> !HasCycle(g)
    ensures |out| == |g| ==> Enumerates(out, g) && DependentsFirst(g, out)
  {
    DistinctKeysBound(out, g);
    if |out| == |g| {
      DrainedIsOrder(g, out);
    } else {
      StuckMeansCycle(g, order, emitted, out);
    }
  }

  /** A complete drain lists every key, dependents first, so the graph is acyclic. */
  lemma DrainedIsOrder<F(!new)>(g: Graph<F>, out: seq<F>)
    requires Distinct(out) && |out| == |g|
    requires forall i :: 0 <= i < |out| ==> out[i] in g
    requires DependentsEmittedFirst(g, out)
    ensures Enumerates(out, g) && DependentsFirst(g, out)
    ensures !HasCycle(g)
  {
    DistinctKeysBound(out, g);
    forall i, j | 0 <= i < |out| && 0 <= j < |out| && out[j] in g[out[i]]
      ensures i < j
    {
      var k :| 0 <= k < j && out[..j][k] == out[i];
    }
    OrderedIsAcyclic(g, out);
  }

  /**
   Kahn's algorithm. `None` is the source's `null`: fewer files were emitted than the map
   has entries. The second result is what the cycle report prints in that case.
   */
  method TopologicalSort<F(==,!new)>(g: Graph<F>, order: seq<F>, seedOrder: seq<F>)
    returns (sorted: Option<seq<F>>, report: Option<CycleSearch.CycleReport<F>>)
    requires Closed(g) && Enumerates(order, g) && Enumerates(seedOrder, g)
    ensures sorted.None? <==> HasCycle(g)
    ensures sorted.Some? ==> |sorted.value| == |g|
    ensures sorted.Some? ==> Enumerates(sorted.value, g) && DependentsFirst(g, sorted.value)
    ensures sorted.None? <==> report.Some?
    ensures report.Some? ==> report.value.start in g
    ensures report.Some? ==> exists c :: Reaches(g, report.value.start, c) && OnCycle(g, c)
    ensures NoEdges(g) ==> sorted == Some(seedOrder)
  {
    var inDegree := CountInDegrees(g, order);
    if NoEdges(g) {
      NoEdgesAllZero(g, order, seedOrder, inDegree);
    }
    var queue := SeedQueue(inDegree, seedOrder);
    SeededState(g, order, seedOrder, inDegree, queue);
    var finalDegree, out, emitted := Drain(g, order, inDegree, queue);
    DrainedState(g, order, finalDegree, out, emitted);
    if NoEdges(g) {
      EnumerationLength(seedOrder, g);
    }
    if |out| == |g| {
      sorted, report := Some(out), None;
    } else {
      sorted := None;
      report := CycleSearch.DetectCycle(g, order);
    }
  }

  /** The main loop: dequeue and emit until the queue is empty. */
  method Drain<F(==,!new)>(g: Graph<F>, order: seq<F>, inDegree: map<F, int>, queue: seq<F>)
    returns (finalDegree: map<F, int>, out: seq<F>, ghost emitted: set<F>)
    requires KahnState(g, order, inDegree, queue, [], {})
    ensures KahnState(g, order, finalDegree, [], out, emitted)
    ensures NoEdges(g) ==> out == queue
  {
    finalDegree, out, emitted := inDegree, [], {};
    var pending := queue;
    while pending != []
      invariant KahnState(g, order, finalDegree, pending, out, emitted)
      invariant |out| <= |g|
      invariant NoEdges(g) ==> out + pending == queue
      decreases |g| - |out|
    {
      finalDegree, pending, out, emitted := Dequeue(g, order, finalDegree, pending, out, emitted);
    }
  }
}
