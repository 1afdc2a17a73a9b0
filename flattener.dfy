/**
 * The `flat` utility of the project's Hardhat configuration: it orders the
 * resolved Solidity files of a dependency graph so that every file follows
 * the files it imports, strips their import statements, concatenates them
 * under one header per file, defangs the per-file license identifiers,
 * prepends one combined license header, and keeps only the first
 * `pragma experimental ABIEncoderV2;`.
 */
module Flattener {
  import opened Sequences
  import opened Text
  import opened ImportPattern
  import opened TopologicalSort

  /** A resolved file: its source name, what `getVersionedName()` returns, and its raw content. */
  datatype File = File(sourceName: string, versionedName: string, content: string)

  /** One pair of `dependenciesGraph.entries()`: a file and the files it imports directly. */
  datatype Entry = Entry(from: File, deps: seq<File>)

  /** What the compiler's resolver hands over: the resolved files and the dependency entries, in iteration order. */
  datatype DependencyGraph = DependencyGraph(resolvedFiles: seq<File>, entries: seq<Entry>)

  /** `resolvedFiles.map((f) => f.sourceName)` */
  function Names(fs: seq<File>): seq<string> {
    seq(|fs|, i requires 0 <= i < |fs| => fs[i].sourceName)
  }

  /**
   * Every file the entries mention is a resolved file. The resolver
   * guarantees it; without it, the lookup in `filesMap` yields `undefined`
   * and the assembly fails on it.
   */
  ghost predicate WellFormed(g: DependencyGraph) {
    forall i :: 0 <= i < |g.entries| ==>
      g.entries[i].from.sourceName in Names(g.resolvedFiles)
      && forall j :: 0 <= j < |g.entries[i].deps| ==> g.entries[i].deps[j].sourceName in Names(g.resolvedFiles)
  }

  // ---------------------------------------------------------------------------
  // Ordering: getSortedFiles
  // ---------------------------------------------------------------------------

  /** The edges `graph.add(to.sourceName, from.sourceName)` adds for one entry. */
  ghost function DepEdges(from: File, deps: seq<File>): set<Edge>
    decreases |deps|
  {
    if deps == [] then {}
    else DepEdges(from, deps[..|deps| - 1]) + {(deps[|deps| - 1].sourceName, from.sourceName)}
  }

  /** The edges of the whole `tsort` graph, entry by entry. */
  ghost function EdgesOf(entries: seq<Entry>): set<Edge>
    decreases |entries|
  {
    if entries == [] then {}
    else
      var last := entries[|entries| - 1];
      EdgesOf(entries[..|entries| - 1]) + DepEdges(last.from, last.deps)
  }

  /** Dependency `j` of entry `i` yields the edge `e`: the dependency comes before the file. */
  ghost predicate IsDependencyEdge(entries: seq<Entry>, i: int, j: int, e: Edge) {
    0 <= i < |entries| && 0 <= j < |entries[i].deps|
    && e == (entries[i].deps[j].sourceName, entries[i].from.sourceName)
  }

  lemma {:induction false} DepEdgesIff(from: File, deps: seq<File>, e: Edge)
    ensures e in DepEdges(from, deps) <==> exists j :: 0 <= j < |deps| && e == (deps[j].sourceName, from.sourceName)
    decreases |deps|
  {
    if deps != [] {
      var init := deps[..|deps| - 1];
      DepEdgesIff(from, init, e);
      if e in DepEdges(from, init) {
        var j :| 0 <= j < |init| && e == (init[j].sourceName, from.sourceName);
        assert deps[j] == init[j];
      }
      if exists j :: 0 <= j < |deps| && e == (deps[j].sourceName, from.sourceName) {
        var j :| 0 <= j < |deps| && e == (deps[j].sourceName, from.sourceName);
        if j < |init| {
          assert init[j] == deps[j];
        }
      }
    }
  }

  /** The graph holds exactly one edge per pair of a file and one of its dependencies. */
  lemma {:induction false} EdgesOfIff(entries: seq<Entry>, e: Edge)
    ensures e in EdgesOf(entries) <==> exists i, j :: IsDependencyEdge(entries, i, j, e)
    decreases |entries|
  {
    if entries != [] {
      var n := |entries| - 1;
      var init := entries[..n];
      EdgesOfIff(init, e);
      DepEdgesIff(entries[n].from, entries[n].deps, e);
      if e in EdgesOf(init) {
        var i, j :| IsDependencyEdge(init, i, j, e);
        assert IsDependencyEdge(entries, i, j, e);
      }
      if e in DepEdges(entries[n].from, entries[n].deps) {
        var j :| 0 <= j < |entries[n].deps| && e == (entries[n].deps[j].sourceName, entries[n].from.sourceName);
        assert IsDependencyEdge(entries, n, j, e);
      }
      if exists i, j :: IsDependencyEdge(entries, i, j, e) {
        var i, j :| IsDependencyEdge(entries, i, j, e);
        if i < n {
          assert IsDependencyEdge(init, i, j, e);
        }
      }
    }
  }

  /** Every node of the `tsort` graph is a resolved file. */
  lemma EndpointsResolved(g: DependencyGraph)
    requires WellFormed(g)
    ensures forall x :: x in Endpoints(EdgesOf(g.entries)) ==> x in Names(g.resolvedFiles)
  {
    forall x | x in Endpoints(EdgesOf(g.entries)) ensures x in Names(g.resolvedFiles) {
      var e :| e in EdgesOf(g.entries) && (x == e.0 || x == e.1);
      EdgesOfIff(g.entries, e);
      var i, j :| IsDependencyEdge(g.entries, i, j, e);
    }
  }

  /** `filesMap` after `resolvedFiles.forEach((f) => (filesMap[f.sourceName] = f))`: a later file wins. */
  ghost function FilesMapOf(fs: seq<File>): (m: map<string, File>)
    ensures forall n :: n in m <==> n in Names(fs)
    ensures forall n :: n in m ==> m[n].sourceName == n && m[n] in fs
    decreases |fs|
  {
    if fs == [] then map[]
    else
      var init := fs[..|fs| - 1];
      assert Names(fs) == Names(init) + [fs[|fs| - 1].sourceName];
      FilesMapOf(init)[fs[|fs| - 1].sourceName := fs[|fs| - 1]]
  }

  /** With distinct source names, `filesMap` takes the name of file `i` back to file `i`. */
  lemma {:induction false} FilesMapOfAt(fs: seq<File>, i: nat)
    requires Distinct(Names(fs)) && i < |fs|
    ensures fs[i].sourceName in FilesMapOf(fs) && FilesMapOf(fs)[fs[i].sourceName] == fs[i]
    decreases |fs|
  {
    var n := |fs| - 1;
    if i < n {
      var init := fs[..n];
      assert Names(init) == Names(fs)[..n];
      assert Names(fs)[i] != Names(fs)[n];
      assert init[i] == fs[i];
      FilesMapOfAt(init, i);
    }
  }

  /** With distinct source names, `filesMap` takes every name back to its own file. */
  lemma FilesMapOfDistinct(fs: seq<File>)
    requires Distinct(Names(fs))
    ensures forall i :: 0 <= i < |fs| ==> fs[i].sourceName in FilesMapOf(fs) && FilesMapOf(fs)[fs[i].sourceName] == fs[i]
  {
    forall i | 0 <= i < |fs| ensures fs[i].sourceName in FilesMapOf(fs) && FilesMapOf(fs)[fs[i].sourceName] == fs[i] {
      FilesMapOfAt(fs, i);
    }
  }

  /** `sortedNames.map((n) => filesMap[n])` */
  function Lookup(m: map<string, File>, names: seq<string>): seq<File>
    requires forall n :: n in names ==> n in m
  {
    seq(|names|, i requires 0 <= i < |names| => m[names[i]])
  }

  /**
   * What `getSortedFiles` returns: some topological order `t` of the edges,
   * followed by every resolved name, deduplicated, each name looked up in
   * `filesMap`.
   */
  ghost predicate IsSortedFiles(g: DependencyGraph, files: seq<File>) {
    exists t ::
      IsTopoOrder(Endpoints(EdgesOf(g.entries)), EdgesOf(g.entries), t)
      && (forall x :: x in t ==> x in Names(g.resolvedFiles))
      && files == Lookup(FilesMapOf(g.resolvedFiles), Dedup(t + Names(g.resolvedFiles)))
  }

  lemma FilesMapStep(fs: seq<File>, i: nat)
    requires i < |fs|
    ensures FilesMapOf(fs[..i + 1]) == FilesMapOf(fs[..i])[fs[i].sourceName := fs[i]]
  {
    assert fs[..i + 1][..i] == fs[..i];
  }

  lemma EdgesOfStep(entries: seq<Entry>, i: nat)
    requires i < |entries|
    ensures EdgesOf(entries[..i + 1]) == EdgesOf(entries[..i]) + DepEdges(entries[i].from, entries[i].deps)
  {
    assert entries[..i + 1][..i] == entries[..i];
  }

  lemma DepEdgesStep(from: File, deps: seq<File>, j: nat)
    requires j < |deps|
    ensures DepEdges(from, deps[..j + 1]) == DepEdges(from, deps[..j]) + {(deps[j].sourceName, from.sourceName)}
  {
    assert deps[..j + 1][..j] == deps[..j];
  }

  /** A topological order of the graph's edges over resolved names yields sorted files. */
  lemma TopoOrderGivesSortedFiles(g: DependencyGraph, t: seq<string>)
    requires IsTopoOrder(Endpoints(EdgesOf(g.entries)), EdgesOf(g.entries), t)
    requires forall x :: x in t ==> x in Names(g.resolvedFiles)
    ensures forall n :: n in Dedup(t + Names(g.resolvedFiles)) ==> n in FilesMapOf(g.resolvedFiles)
    ensures IsSortedFiles(g, Lookup(FilesMapOf(g.resolvedFiles), Dedup(t + Names(g.resolvedFiles))))
  {
  }

  /** `resolvedFiles.forEach((f) => (filesMap[f.sourceName] = f))` */
  method MapFiles(resolvedFiles: seq<File>) returns (filesMap: map<string, File>)
    ensures filesMap == FilesMapOf(resolvedFiles)
  {
    filesMap := map[];
    for i := 0 to |resolvedFiles|
      invariant filesMap == FilesMapOf(resolvedFiles[..i])
    {
      FilesMapStep(resolvedFiles, i);
      filesMap := filesMap[resolvedFiles[i].sourceName := resolvedFiles[i]];
    }
    assert resolvedFiles[..|resolvedFiles|] == resolvedFiles;
  }

  /** The two nested loops over `dependenciesGraph.entries()` that fill the `tsort` graph. */
  method AddEdges(graph: SortGraph, entries: seq<Entry>)
    requires graph.Valid() && graph.edges == {}
    modifies graph
    ensures graph.Valid() && graph.edges == EdgesOf(entries)
  {
    for i := 0 to |entries|
      invariant graph.Valid()
      invariant graph.edges == EdgesOf(entries[..i])
    {
      var entry := entries[i];
      for j := 0 to |entry.deps|
        invariant graph.Valid()
        invariant graph.edges == EdgesOf(entries[..i]) + DepEdges(entry.from, entry.deps[..j])
      {
        DepEdgesStep(entry.from, entry.deps, j);
        graph.Add(entry.deps[j].sourceName, entry.from.sourceName);
      }
      assert entry.deps[..|entry.deps|] == entry.deps;
      EdgesOfStep(entries, i);
    }
    assert entries[..|entries|] == entries;
  }

  /** `getSortedFiles(dependenciesGraph)`; the `tsort` error on a cycle becomes `Err`. */
  method GetSortedFiles(g: DependencyGraph) returns (r: Result<seq<File>>)
    requires WellFormed(g)
    ensures r.Err? <==> HasCycle(EdgesOf(g.entries))
    ensures r.Ok? ==> IsSortedFiles(g, r.value)
  {
    var graph := new SortGraph();
    var resolvedFiles := g.resolvedFiles;
    var filesMap := MapFiles(resolvedFiles);
    AddEdges(graph, g.entries);

    var sorted := graph.Sort();
    if sorted.Err? {
      r := Err(sorted.error);
      return;
    }
    var topologicalSortedNames := sorted.value;
    EndpointsResolved(g);
    TopoOrderMeansNoCycle(Endpoints(graph.edges), graph.edges, topologicalSortedNames);
    TopoOrderGivesSortedFiles(g, topologicalSortedNames);
    var withEntries := topologicalSortedNames + Names(resolvedFiles);
    var sortedNames := Dedup(withEntries);
    r := Ok(Lookup(filesMap, sortedNames));
  }

  /** Looking names up in a map that files each file under its own name gives back the names. */
  lemma NamesOfLookup(m: map<string, File>, names: seq<string>)
    requires forall n :: n in names ==> n in m
    requires forall n :: n in m ==> m[n].sourceName == n
    ensures Names(Lookup(m, names)) == names
  {
    var files := Lookup(m, names);
    forall k | 0 <= k < |names| ensures Names(files)[k] == names[k] {
      assert files[k] == m[names[k]];
    }
  }

  /** The names of the sorted files: the topological order first, then the files it lacks. */
  lemma SortedNames(g: DependencyGraph, files: seq<File>) returns (t: seq<string>)
    requires IsSortedFiles(g, files)
    ensures IsTopoOrder(Endpoints(EdgesOf(g.entries)), EdgesOf(g.entries), t)
    ensures Names(files) == t + DedupFrom(Names(g.resolvedFiles), set x | x in t)
    ensures Distinct(Names(files))
    ensures forall n :: n in Names(files) <==> n in Names(g.resolvedFiles)
    ensures files == Lookup(FilesMapOf(g.resolvedFiles), Names(files))
  {
    var ns := Names(g.resolvedFiles);
    var m := FilesMapOf(g.resolvedFiles);
    t :| IsTopoOrder(Endpoints(EdgesOf(g.entries)), EdgesOf(g.entries), t)
      && (forall x :: x in t ==> x in ns)
      && files == Lookup(m, Dedup(t + ns));
    NamesOfLookup(m, Dedup(t + ns));
    DedupKeepsDistinctPrefix(t, ns);
  }

  /**
   * Looking up distinct names that are exactly the names of `fs`, in a map
   * that takes each name of `fs` to its own file, lists every file of `fs`
   * once and nothing else.
   */
  lemma LookupExactlyOnce(files: seq<File>, fs: seq<File>, m: map<string, File>)
    requires forall i :: 0 <= i < |fs| ==> fs[i].sourceName in m && m[fs[i].sourceName] == fs[i]
    requires forall n :: n in m ==> m[n] in fs
    requires Distinct(Names(files))
    requires forall n :: n in Names(files) <==> n in Names(fs)
    requires forall n :: n in Names(files) ==> n in m
    requires files == Lookup(m, Names(files))
    ensures Distinct(files)
    ensures forall f :: f in files <==> f in fs
  {
    var ns := Names(files);
    forall i, j | 0 <= i < j < |files| ensures files[i] != files[j] {
      assert ns[i] != ns[j];
    }
    forall f | f in files ensures f in fs {
      var i :| 0 <= i < |files| && files[i] == f;
      assert f == m[ns[i]];
    }
    forall k | 0 <= k < |fs| ensures fs[k] in files {
      var f := fs[k];
      assert Names(fs)[k] == f.sourceName;
      var i := IndexOf(ns, f.sourceName);
      assert files[i] == m[f.sourceName];
    }
  }

  /** With distinct source names, every resolved file appears exactly once, and nothing else does. */
  lemma SortedFilesExactlyOnce(g: DependencyGraph, files: seq<File>)
    requires IsSortedFiles(g, files)
    requires Distinct(Names(g.resolvedFiles))
    ensures Distinct(files)
    ensures forall f :: f in files <==> f in g.resolvedFiles
  {
    var t := SortedNames(g, files);
    FilesMapOfDistinct(g.resolvedFiles);
    LookupExactlyOnce(files, g.resolvedFiles, FilesMapOf(g.resolvedFiles));
  }

  /** Every dependency edge points forward in the sorted files. */
  lemma SortedFilesRespectEdges(g: DependencyGraph, files: seq<File>)
    requires IsSortedFiles(g, files)
    ensures forall i, j ::
      (0 <= i < |files| && 0 <= j < |files| && (files[i].sourceName, files[j].sourceName) in EdgesOf(g.entries))
      ==> i < j
  {
    var t := SortedNames(g, files);
    var es := EdgesOf(g.entries);
    var ns := Names(files);
    forall i, j | 0 <= i < |files| && 0 <= j < |files| && (files[i].sourceName, files[j].sourceName) in es
      ensures i < j
    {
      var e := (ns[i], ns[j]);
      assert e.0 in Endpoints(es) && e.1 in Endpoints(es);
      var i' := IndexOf(t, ns[i]);
      var j' := IndexOf(t, ns[j]);
      assert ns[i'] == t[i'] && ns[j'] == t[j'];
    }
  }

  /** When the names are `t + rest`, with `rest` disjoint from `t`, the members of `t` come first. */
  lemma MembersFirst(files: seq<File>, t: seq<string>, rest: seq<string>, es: set<string>)
    requires Names(files) == t + rest
    requires forall x :: x in t <==> x in es
    requires forall x :: x in rest ==> x !in t
    ensures forall i, j ::
      (0 <= i < |files| && 0 <= j < |files| && files[i].sourceName in es && files[j].sourceName !in es)
      ==> i < j
  {
    var ns := Names(files);
    forall k | |t| <= k < |ns| ensures ns[k] !in es {
      assert ns[k] == rest[k - |t|];
    }
    forall i, j | 0 <= i < |files| && 0 <= j < |files| && files[i].sourceName in es && files[j].sourceName !in es
      ensures i < j
    {
      assert ns[i] == files[i].sourceName && ns[j] == files[j].sourceName;
    }
  }

  /** Files that no edge mentions come after all files of the `tsort` order. */
  lemma SortedFilesIsolatedLast(g: DependencyGraph, files: seq<File>)
    requires IsSortedFiles(g, files)
    ensures forall i, j ::
      (0 <= i < |files| && 0 <= j < |files|
       && files[i].sourceName in Endpoints(EdgesOf(g.entries))
       && files[j].sourceName !in Endpoints(EdgesOf(g.entries)))
      ==> i < j
  {
    var t := SortedNames(g, files);
    MembersFirst(files, t, DedupFrom(Names(g.resolvedFiles), set x | x in t), Endpoints(EdgesOf(g.entries)));
  }

  /**
   * When the names are `t + rest`, with `rest` disjoint from `t` and in the
   * order of first occurrence in `ns`, the files outside `t` keep that order.
   */
  lemma RestInOrder(files: seq<File>, t: seq<string>, rest: seq<string>, es: set<string>, ns: seq<string>)
    requires Names(files) == t + rest
    requires forall x :: x in t <==> x in es
    requires forall x :: x in rest ==> x in ns
    requires forall i, j {:trigger IndexOf(ns, rest[i]), IndexOf(ns, rest[j])} ::
      0 <= i < j < |rest| ==> IndexOf(ns, rest[i]) < IndexOf(ns, rest[j])
    ensures forall i, j ::
      (0 <= i < j < |files| && files[i].sourceName !in es && files[j].sourceName !in es
       && files[i].sourceName in ns && files[j].sourceName in ns)
      ==> IndexOf(ns, files[i].sourceName) < IndexOf(ns, files[j].sourceName)
  {
    var names := Names(files);
    forall k | 0 <= k < |t| ensures names[k] in es {
      assert names[k] == t[k];
    }
    forall i, j | 0 <= i < j < |files| && files[i].sourceName !in es && files[j].sourceName !in es
        && files[i].sourceName in ns && files[j].sourceName in ns
      ensures IndexOf(ns, files[i].sourceName) < IndexOf(ns, files[j].sourceName)
    {
      assert names[i] == files[i].sourceName && names[j] == files[j].sourceName;
      assert names[i] == rest[i - |t|] && names[j] == rest[j - |t|];
    }
  }

  /** The files that no edge mentions follow the order of the resolved files. */
  lemma SortedFilesIsolatedInResolvedOrder(g: DependencyGraph, files: seq<File>)
    requires IsSortedFiles(g, files)
    ensures forall i, j ::
      (0 <= i < j < |files|
       && files[i].sourceName !in Endpoints(EdgesOf(g.entries))
       && files[j].sourceName !in Endpoints(EdgesOf(g.entries))
       && files[i].sourceName in Names(g.resolvedFiles) && files[j].sourceName in Names(g.resolvedFiles))
      ==> IndexOf(Names(g.resolvedFiles), files[i].sourceName) < IndexOf(Names(g.resolvedFiles), files[j].sourceName)
  {
    var t := SortedNames(g, files);
    var ns := Names(g.resolvedFiles);
    RestInOrder(files, t, DedupFrom(ns, set x | x in t), Endpoints(EdgesOf(g.entries)), ns);
  }

  // ---------------------------------------------------------------------------
  // Assembly: the flat:get-flattened-sources action
  // ---------------------------------------------------------------------------

  const LicenseHeader: string := "// SPDX-License-Identifier: MIXED\n\n"
  const SpdxMarker: string := "SPDX-License-Identifier:"
  const DefangedMarker: string := "License-Identifier:"
  const Pragma: string := "pragma experimental ABIEncoderV2;\n"

  /** Neither rewritten marker can overlap itself. */
  lemma MarkersDoNotOverlapThemselves()
    ensures SelfOverlapFree(SpdxMarker) && SelfOverlapFree(Pragma)
  {
    LastCharOnceNoOverlap(SpdxMarker);
    LastCharOnceNoOverlap(Pragma);
  }

  /**
   * For either rewritten marker, the cut that `ReplaceAllCharacterized` and
   * `KeepFirstCharacterized` promise is unique: it is the split.
   */
  lemma MarkerCutIsUnique(s: string, pat: string, parts: seq<string>)
    requires pat == SpdxMarker || pat == Pragma
    requires |parts| >= 1 && Join(parts, pat) == s
    requires forall i :: 0 <= i < |parts| ==> !Contains(parts[i], pat)
    ensures parts == Split(s, pat)
  {
    MarkersDoNotOverlapThemselves();
    CutIsUnique(s, pat, parts);
  }

  /** What the loop uses of one file: its versioned name and its text without imports. */
  datatype Piece = Piece(versionedName: string, body: string)

  function PieceOf(f: File): Piece {
    Piece(f.versionedName, StripImports(f.content))
  }

  function Pieces(fs: seq<File>): seq<Piece> {
    seq(|fs|, i requires 0 <= i < |fs| => PieceOf(fs[i]))
  }

  /** What the loop appends for one file, without the separating newline. */
  function Block(p: Piece): string {
    ("// File " + p.versionedName + "\n") + (p.body + "\n")
  }

  function BlockTexts(ps: seq<Piece>): seq<string> {
    seq(|ps|, i requires 0 <= i < |ps| => Block(ps[i]))
  }

  /** The text the loop builds: the blocks in order, with one extra newline before each block but the first. */
  function Blocks(ps: seq<Piece>): string {
    if ps == [] then "" else Join(BlockTexts(ps), "\n")
  }

  /** Where the block of piece `i` begins. */
  function BlockOffset(ps: seq<Piece>, i: nat): nat
    requires i <= |ps|
  {
    JoinOffset(BlockTexts(ps), "\n", i)
  }

  /** The block of piece `i` is found at its offset, the next block follows after a single newline, and the text ends with the last block. */
  lemma BlockLayout(ps: seq<Piece>, i: nat)
    requires i < |ps|
    ensures BlockOffset(ps, i) + |Block(ps[i])| <= |Blocks(ps)|
    ensures Blocks(ps)[BlockOffset(ps, i)..BlockOffset(ps, i) + |Block(ps[i])|] == Block(ps[i])
    ensures i + 1 < |ps| ==>
      (BlockOffset(ps, i + 1) == BlockOffset(ps, i) + |Block(ps[i])| + 1 <= |Blocks(ps)|
       && Blocks(ps)[BlockOffset(ps, i) + |Block(ps[i])|..BlockOffset(ps, i + 1)] == "\n")
    ensures i + 1 == |ps| ==> BlockOffset(ps, i) + |Block(ps[i])| == |Blocks(ps)|
  {
    var xs := BlockTexts(ps);
    assert xs[i] == Block(ps[i]);
    assert Blocks(ps) == Join(xs, "\n");
    JoinAt(xs, "\n", i);
    if i + 1 < |ps| {
      JoinSeparatorAt(xs, "\n", i);
    }
  }

  /** Block `i` ends before block `j` begins whenever `i < j`. */
  lemma {:induction false} BlocksInOrder(ps: seq<Piece>, i: nat, j: nat)
    requires i < j < |ps|
    ensures BlockOffset(ps, i) + |Block(ps[i])| < BlockOffset(ps, j)
    decreases j - i
  {
    BlockLayout(ps, i);
    if j > i + 1 {
      BlocksInOrder(ps, i + 1, j);
    }
  }

  /** Appending block `k`, after a newline unless it is the first, extends the text of blocks `0..k`. */
  lemma BlocksSnoc(ps: seq<Piece>, k: nat)
    requires k < |ps|
    ensures Blocks(ps[..k + 1]) == (if k == 0 then "" else Blocks(ps[..k]) + "\n") + Block(ps[k])
  {
    assert ps[..k + 1] == ps[..k] + [ps[k]];
    assert BlockTexts(ps[..k + 1]) == BlockTexts(ps[..k]) + [Block(ps[k])];
    if k > 0 {
      JoinSnoc(BlockTexts(ps[..k]), Block(ps[k]), "\n");
    } else {
      assert BlockTexts(ps[..1]) == [Block(ps[k])];
    }
  }

  /** The text of one or more blocks starts with the `// File` comment of the first. */
  lemma BlocksBeginWithComment(ps: seq<Piece>)
    requires ps != []
    ensures |Blocks(ps)| > 0 && Blocks(ps)[0] == '/'
  {
    BlockLayout(ps, 0);
    var first := Block(ps[0]);
    assert first[0] == '/';
    assert Blocks(ps)[..|first|] == first;
  }

  /** A file's block comes entirely before the block of every file that imports it. */
  lemma DependencyBlockFirst(g: DependencyGraph, files: seq<File>, ei: nat, di: nat)
    requires WellFormed(g) && IsSortedFiles(g, files)
    requires ei < |g.entries| && di < |g.entries[ei].deps|
    ensures exists i, j ::
      (0 <= i < j < |files|
       && files[i].sourceName == g.entries[ei].deps[di].sourceName
       && files[j].sourceName == g.entries[ei].from.sourceName
       && BlockOffset(Pieces(files), i) + |Block(Pieces(files)[i])| < BlockOffset(Pieces(files), j))
  {
    var e := (g.entries[ei].deps[di].sourceName, g.entries[ei].from.sourceName);
    assert IsDependencyEdge(g.entries, ei, di, e);
    EdgesOfIff(g.entries, e);
    var t := SortedNames(g, files);
    var ns := Names(files);
    var i := IndexOf(ns, e.0);
    var j := IndexOf(ns, e.1);
    SortedFilesRespectEdges(g, files);
    assert (files[i].sourceName, files[j].sourceName) == e;
    BlocksInOrder(Pieces(files), i, j);
  }

  /**
   * The replace with a counting callback, scanning `rest`: a match is
   * replaced by the match itself while `first` holds (the counter is zero)
   * and by the empty string afterwards; any other character is copied.
   */
  function CountingReplace(rest: string, pat: string, first: bool): string
    requires pat != []
    decreases |rest|
  {
    if rest == [] then []
    else if StartsWith(rest, pat) then (if first then pat else "") + CountingReplace(rest[|pat|..], pat, false)
    else [rest[0]] + CountingReplace(rest[1..], pat, first)
  }

  /** Before the first match the counting replace is keep-first; after it, it deletes every match. */
  lemma {:induction false} CountingReplaceIsKeepFirst(s: string, pat: string, first: bool)
    requires pat != []
    ensures CountingReplace(s, pat, first) == if first then KeepFirst(s, pat) else ReplaceAll(s, pat, "")
    decreases |s|
  {
    if s == [] {
      NoOccurrenceUnchanged([], pat, "");
    } else if StartsWith(s, pat) {
      CountingReplaceIsKeepFirst(s[|pat|..], pat, false);
      if first {
        KeepFirstAtOccurrence(s, pat);
      } else {
        ReplaceAllAtOccurrence(s, pat, "");
      }
    } else {
      CountingReplaceIsKeepFirst(s[1..], pat, first);
      if first {
        KeepFirstElsewhere(s, pat);
      } else {
        ReplaceAllElsewhere(s, pat, "");
      }
    }
  }

  /** Replacing a match at the scan position keeps the loop's account of the result. */
  lemma MatchStep(r: string, rest: string, pat: string, first: bool, result: string)
    requires pat != [] && StartsWith(rest, pat)
    requires r + CountingReplace(rest, pat, first) == result
    ensures (r + (if first then pat else "")) + CountingReplace(rest[|pat|..], pat, false) == result
  {
    assert rest != [];
  }

  /** Copying a character that starts no match keeps the loop's account of the result. */
  lemma CopyStep(r: string, rest: string, pat: string, first: bool, result: string)
    requires pat != [] && rest != [] && !StartsWith(rest, pat)
    requires r + CountingReplace(rest, pat, first) == result
    ensures (r + [rest[0]]) + CountingReplace(rest[1..], pat, first) == result
  {
  }

  /**
   * The pragma rewrite: a global replace whose callback keeps a counter and
   * returns the match while the counter is zero and the empty string after.
   */
  method RemoveRepeated(text: string, pat: string) returns (r: string)
    requires pat != []
    ensures r == KeepFirst(text, pat)
  {
    var count: nat := 0;
    var rest := text;
    r := "";
    while rest != []
      invariant r + CountingReplace(rest, pat, count == 0) == CountingReplace(text, pat, true)
      decreases |rest|
    {
      if StartsWith(rest, pat) {
        MatchStep(r, rest, pat, count == 0, CountingReplace(text, pat, true));
        r := r + (if count == 0 then pat else "");
        count := count + 1;
        rest := rest[|pat|..];
      } else {
        CopyStep(r, rest, pat, count == 0, CountingReplace(text, pat, true));
        r := r + [rest[0]];
        rest := rest[1..];
      }
    }
    assert r + [] == r;
    CountingReplaceIsKeepFirst(text, pat, true);
  }

  /** The flattened text for a sorted list of files: the three rewrites after the block layout, then `trim`. */
  function Assemble(files: seq<File>): string {
    Trim(KeepFirst(LicenseHeader + ReplaceAll(Blocks(Pieces(files)), SpdxMarker, DefangedMarker), Pragma))
  }

  /**
   * A header that starts with a non-space and holds no first character of
   * the pragma survives the three rewrites in front of a text that starts
   * with neither the marker, nor the pragma, nor white space.
   */
  lemma HeaderSurvivesRewrites(h: string, b: string, marker: string, rep: string, pat: string)
    requires h != [] && !IsSpace(h[0])
    requires marker != [] && pat != [] && pat[0] !in h
    requires b != [] && b[0] != marker[0] && b[0] != pat[0] && !IsSpace(b[0])
    ensures |h| <= |Trim(KeepFirst(h + ReplaceAll(b, marker, rep), pat))|
    ensures Trim(KeepFirst(h + ReplaceAll(b, marker, rep), pat))[..|h|] == h
  {
    NotStartsWith(b, marker);
    ReplaceAllElsewhere(b, marker, rep);
    var replaced := ReplaceAll(b, marker, rep);
    assert replaced[0] == b[0];
    KeepFirstAfterPrefix(h, replaced, pat);
    NotStartsWith(replaced, pat);
    KeepFirstElsewhere(replaced, pat);
    var kept := KeepFirst(replaced, pat);
    assert kept[0] == b[0];
    TrimKeepsPrefix(h, kept);
    assert (h + TrimEnd(kept))[..|h|] == h;
  }

  /** The flattened text of a non-empty list of files begins with the combined license header and a blank line. */
  lemma OutputBeginsWithLicenseHeader(files: seq<File>)
    requires files != []
    ensures |LicenseHeader| <= |Assemble(files)| && Assemble(files)[..|LicenseHeader|] == LicenseHeader
  {
    BlocksBeginWithComment(Pieces(files));
    ConstantsApart();
    HeaderSurvivesRewrites(LicenseHeader, Blocks(Pieces(files)), SpdxMarker, DefangedMarker, Pragma);
  }

  /** The header starts with `/`, holds no `p`, and the marker and the pragma start with neither. */
  lemma ConstantsApart()
    ensures LicenseHeader != [] && LicenseHeader[0] == '/' && !IsSpace(LicenseHeader[0])
    ensures SpdxMarker != [] && SpdxMarker[0] == 'S'
    ensures Pragma != [] && Pragma[0] == 'p' && Pragma[0] !in LicenseHeader
  {
    assert 'p' !in LicenseHeader;
  }

  /** One round of the loop: the optional newline, the heading and the stripped text extend the blocks by one. */
  lemma ConcatenateStep(ps: seq<Piece>, k: nat, separated: string, heading: string, text: string)
    requires k < |ps|
    requires separated == if k == 0 then "" else Blocks(ps[..k]) + "\n"
    requires heading == "// File " + ps[k].versionedName + "\n"
    requires text == ps[k].body + "\n"
    ensures (separated + heading) + text == Blocks(ps[..k + 1])
  {
    BlocksSnoc(ps, k);
    assert (separated + heading) + text == separated + (heading + text);
  }

  /** The loop over the sorted files with its `isFirst` flag. */
  method ConcatenateBlocks(files: seq<File>) returns (flattened: string)
    ensures flattened == Blocks(Pieces(files))
  {
    ghost var ps := Pieces(files);
    flattened := "";
    var isFirst := true;
    for k := 0 to |files|
      invariant isFirst <==> k == 0
      invariant flattened == Blocks(ps[..k])
    {
      var piece := PieceOf(files[k]);
      if !isFirst {
        flattened := flattened + "\n";
      }
      var heading := "// File " + piece.versionedName + "\n";
      var text := piece.body + "\n";
      ConcatenateStep(ps, k, flattened, heading, text);
      flattened := flattened + heading;
      flattened := flattened + text;
      isFirst := false;
    }
    assert ps[..|files|] == ps;
  }

  /**
   * The action of `flat:get-flattened-sources` once the dependency graph is
   * resolved: the empty string for no files, the cycle error of the sort,
   * or the flattened text of the sorted files.
   */
  method GetFlattenedSources(g: DependencyGraph) returns (r: Result<string>)
    requires WellFormed(g)
    ensures |g.resolvedFiles| == 0 ==> r == Ok("")
    ensures |g.resolvedFiles| > 0 ==> (r.Err? <==> HasCycle(EdgesOf(g.entries)))
    ensures r.Ok? && |g.resolvedFiles| > 0 ==>
      (exists files :: IsSortedFiles(g, files) && files != [] && r.value == Assemble(files))
    ensures r.Ok? && |g.resolvedFiles| > 0 ==>
      |LicenseHeader| <= |r.value| && r.value[..|LicenseHeader|] == LicenseHeader
  {
    if |g.resolvedFiles| == 0 {
      return Ok("");
    }

    var sorted := GetSortedFiles(g);
    if sorted.Err? {
      return Err(sorted.error);
    }
    var sortedFiles := sorted.value;

    var flattened := ConcatenateBlocks(sortedFiles);
    flattened := ReplaceAll(flattened, SpdxMarker, DefangedMarker);
    flattened := LicenseHeader + flattened;
    flattened := RemoveRepeated(flattened, Pragma);
    flattened := Trim(flattened);
    r := Ok(flattened);

    SortedFilesNonEmpty(g, sortedFiles);
    OutputBeginsWithLicenseHeader(sortedFiles);
  }

  /** A graph with resolved files sorts to a non-empty list. */
  lemma SortedFilesNonEmpty(g: DependencyGraph, files: seq<File>)
    requires IsSortedFiles(g, files) && g.resolvedFiles != []
    ensures files != []
  {
    var t := SortedNames(g, files);
    assert Names(g.resolvedFiles)[0] in Names(g.resolvedFiles);
  }
}
