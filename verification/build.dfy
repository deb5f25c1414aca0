/**
 Construction of the dependency map from the discovered fragments.

 Each fragment's lines are scanned in order; a line whose first directive match resolves
 (against the root directory) to a discovered fragment contributes exactly that one edge,
 any other line contributes nothing. Path resolution and file reading are left abstract:
 `resolve(root, path)` stands for constructing a file from the root directory and the
 captured path, `read(f)` for the lines a reader yields for `f`.
 */
module Build {
  import opened Wrappers
  import opened Graphs
  import Directive

  /** The edge a single line contributes: none, or the one discovered file it resolves to. */
  function LineEdge<F(==)>(line: string, files: seq<F>, root: string, resolve: (string, string) -> F): (r: seq<F>)
    ensures |r| <= 1
    ensures |r| == 1 <==> Directive.RequiredPath(line).Some? && resolve(root, Directive.RequiredPath(line).value) in files
    ensures |r| == 1 ==> r[0] == resolve(root, Directive.RequiredPath(line).value)
  {
    match Directive.RequiredPath(line)
    case Some(path) =>
      var target := resolve(root, path);
      if target in files then [target] else []
    case None => []
  }

  /** The dependency list of one fragment, given its lines. */
  function FileDependencies<F(==)>(lines: seq<string>, files: seq<F>, root: string, resolve: (string, string) -> F): (r: seq<F>)
    ensures |r| <= |lines|
    ensures forall i :: 0 <= i < |r| ==> r[i] in files
  {
    if lines == [] then []
    else LineEdge(lines[0], files, root, resolve) + FileDependencies(lines[1..], files, root, resolve)
  }

  /** The dependency map: one entry per discovered file, holding that file's dependency list. */
  function BuildDependencies<F(==,!new)>(files: seq<F>, root: string, resolve: (string, string) -> F, read: F -> seq<string>): (g: Graph<F>)
    ensures g.Keys == Elements(files)
    ensures forall f :: f in g ==> g[f] == FileDependencies(read(f), files, root, resolve)
    ensures Closed(g)
  {
    map f | f in files :: FileDependencies(read(f), files, root, resolve)
  }

  /** Scanning the lines is compositional: the edges of `a + b` are those of `a`, then those of `b`. */
  lemma {:induction false} DependenciesAppend<F>(a: seq<string>, b: seq<string>, files: seq<F>, root: string, resolve: (string, string) -> F)
    ensures FileDependencies(a + b, files, root, resolve)
         == FileDependencies(a, files, root, resolve) + FileDependencies(b, files, root, resolve)
  {
    if a == [] {
      assert a + b == b;
    } else {
      assert (a + b)[1..] == a[1..] + b;
      DependenciesAppend(a[1..], b, files, root, resolve);
    }
  }

  /**
   A line without a directive, or whose directive names a file that was not discovered,
   leaves the dependency list exactly as if the line were absent.
   */
  lemma DroppedLineIsInvisible<F>(a: seq<string>, line: string, b: seq<string>, files: seq<F>, root: string, resolve: (string, string) -> F)
    requires Directive.RequiredPath(line).None? || resolve(root, Directive.RequiredPath(line).value) !in files
    ensures FileDependencies(a + [line] + b, files, root, resolve) == FileDependencies(a + b, files, root, resolve)
  {
    var none := FileDependencies([line], files, root, resolve);
    assert none == [] by {
      assert [line][1..] == [];
    }
    calc {
      FileDependencies(a + [line] + b, files, root, resolve);
    == { DependenciesAppend(a + [line], b, files, root, resolve); }
      FileDependencies(a + [line], files, root, resolve) + FileDependencies(b, files, root, resolve);
    == { DependenciesAppend(a, [line], files, root, resolve); }
      FileDependencies(a, files, root, resolve) + none + FileDependencies(b, files, root, resolve);
    == { assert FileDependencies(a, files, root, resolve) + none == FileDependencies(a, files, root, resolve); }
      FileDependencies(a, files, root, resolve) + FileDependencies(b, files, root, resolve);
    == { DependenciesAppend(a, b, files, root, resolve); }
      FileDependencies(a + b, files, root, resolve);
    }
  }

  /** A resolved directive adds its target exactly once, in its line's position. */
  lemma ResolvedLineAddsOneEdge<F>(a: seq<string>, line: string, b: seq<string>, files: seq<F>, root: string, resolve: (string, string) -> F, path: string)
    requires Directive.RequiredPath(line) == Some(path)
    requires resolve(root, path) in files
    ensures FileDependencies(a + [line] + b, files, root, resolve)
         == FileDependencies(a, files, root, resolve) + [resolve(root, path)] + FileDependencies(b, files, root, resolve)
  {
    var edge := FileDependencies([line], files, root, resolve);
    assert edge == [resolve(root, path)] by {
      assert [line][1..] == [];
    }
    calc {
      FileDependencies(a + [line] + b, files, root, resolve);
    == { DependenciesAppend(a + [line], b, files, root, resolve); }
      FileDependencies(a + [line], files, root, resolve) + FileDependencies(b, files, root, resolve);
    == { DependenciesAppend(a, [line], files, root, resolve); }
      FileDependencies(a, files, root, resolve) + edge + FileDependencies(b, files, root, resolve);
    }
  }
}
