/** The repository analyser (GIT-BE/analysis_service.py, `analyze_repo_dir`).

    The language-model prompts of llm_service.py and Python's own parser
    are not modelled: they are passed in as functions. The repository is
    an `FsNode` tree; reading a file yields its text or fails. */
module Analysis {
  import opened Wrappers
  import opened FolderTree
  import opened Language
  import opened RepoWalk
  import Py = PythonImports
  import Js = JsImports

  /** An edge of the dependency graph, `{"source": rel, "target": imp}`. */
  datatype Edge = Edge(source: string, target: string)

  /** The calls into code outside the model. */
  datatype Oracles = Oracles(
    explainCode: (string, string) -> string,            // explain_code(code, rel)
    securityScan: (string, string, string) -> string,   // security_scan(code, rel, lang)
    generateTests: (string, string, string) -> string,  // generate_tests(code, rel, lang)
    architectureDiagram: (string, string) -> string,    // generate_architecture_diagram(repo_name, text)
    parsePython: string -> Option<seq<Py.PyNode>>)      // ast.parse then ast.walk; None when parsing raises

  /** The three dictionaries and the edge list the loop fills. */
  datatype Tables = Tables(
    summaries: map<string, string>,
    security: map<string, string>,
    tests: map<string, string>,
    dependencies: seq<Edge>)

  const NoTables := Tables(map[], map[], map[], [])

  /** The dictionary `analyze_repo_dir` returns. */
  datatype Report = Report(
    repoName: string,
    folderTree: Tree,
    folderTreeText: string,
    fileSummaries: map<string, string>,
    securityReports: map<string, string>,
    testCases: map<string, string>,
    dependencyGraph: seq<Edge>,
    architecture: string)

  // ---------------------------------------------------------------------
  // Paths.

  /** The position of the last dot in s. */
  function LastDot(s: string): (r: Option<nat>)
    ensures r.Some? ==> r.value < |s| && s[r.value] == '.' && forall k :: r.value < k < |s| ==> s[k] != '.'
    ensures r.None? ==> forall k :: 0 <= k < |s| ==> s[k] != '.'
  {
    if s == [] then None
    else if s[|s| - 1] == '.' then Some(|s| - 1)
    else LastDot(s[..|s| - 1])
  }

  predicate OnlyDots(s: string)
  {
    forall k :: 0 <= k < |s| ==> s[k] == '.'
  }

  /** `os.path.splitext(file)[1]` for a file name: from the last dot on,
      provided some character before that dot is not a dot; otherwise
      empty (so `.bashrc` and `..py` have no extension). */
  function Ext(name: string): string
  {
    match LastDot(name)
    case None => ""
    case Some(d) => if OnlyDots(name[..d]) then "" else name[d..]
  }

  /** The extension is empty, or it is the part of the name from its last
      dot on and some character before that dot is not a dot; it is empty
      only when there is no such dot. */
  lemma ExtShape(name: string)
    ensures var ext := Ext(name);
      ext != "" ==> |ext| < |name| && ext == name[|name| - |ext|..] && ext[0] == '.' &&
                    (forall k :: 1 <= k < |ext| ==> ext[k] != '.') && !OnlyDots(name[..|name| - |ext|])
    ensures Ext(name) == "" ==>
      forall d :: 0 <= d < |name| && name[d] == '.' && !OnlyDots(name[..d]) ==>
        exists k :: d < k < |name| && name[k] == '.'
  {
  }

  /** `os.path.join` of the directory names and the file name, relative to
      the repository root. */
  function PathOf(dir: seq<string>, name: string): string
  {
    if dir == [] then name else dir[0] + "/" + PathOf(dir[1..], name)
  }

  /** `.replace("\\", "/")` */
  function ToSlashes(s: string): (r: string)
    ensures |r| == |s| && '\\' !in r
    ensures forall k :: 0 <= k < |s| && s[k] != '\\' ==> r[k] == s[k]
    ensures forall k :: 0 <= k < |s| && s[k] == '\\' ==> r[k] == '/'
  {
    if s == [] then [] else [if s[0] == '\\' then '/' else s[0]] + ToSlashes(s[1..])
  }

  /** The key a file is stored under. */
  function RelPath(dir: seq<string>, name: string): string
  {
    ToSlashes(PathOf(dir, name))
  }

  // ---------------------------------------------------------------------
  // The loop body and what the loop computes.

  /** The file passes the extension filter and could be read. */
  predicate Analysed(v: Visit)
  {
    IsCodeExtension(Ext(v.name)) && v.content.Some?
  }

  /** The dependency dispatch, on the extension as written: `.py` to the
      Python extractor, `.js` and `.ts` to the pattern extractor. */
  function FileImports(o: Oracles, ext: string, code: string): seq<string>
  {
    if ext == ".py" then Py.PythonImports(o.parsePython(code))
    else if ext == ".js" || ext == ".ts" then Js.JsImports(code)
    else []
  }

  function EdgesFrom(rel: string, imports: seq<string>): (es: seq<Edge>)
    ensures |es| == |imports|
    ensures forall i :: 0 <= i < |imports| ==> es[i] == Edge(rel, imports[i])
  {
    if imports == [] then [] else EdgesFrom(rel, imports[..|imports| - 1]) + [Edge(rel, imports[|imports| - 1])]
  }

  /** The edges one file adds. */
  function EdgesOf(o: Oracles, v: Visit): seq<Edge>
  {
    if Analysed(v) then EdgesFrom(RelPath(v.dir, v.name), FileImports(o, Ext(v.name), v.content.value)) else []
  }

  /** One pass of the loop body. */
  function Step(o: Oracles, t: Tables, v: Visit): Tables
  {
    if !Analysed(v) then t
    else
      var rel := RelPath(v.dir, v.name);
      var code := v.content.value;
      var lang := DetectLanguage(Ext(v.name));
      Tables(t.summaries[rel := o.explainCode(code, rel)],
             t.security[rel := o.securityScan(code, rel, lang)],
             t.tests[rel := o.generateTests(code, rel, lang)],
             t.dependencies + EdgesOf(o, v))
  }

  /** The loop body applied to the visits in order. */
  function Fold(o: Oracles, t: Tables, vs: seq<Visit>): Tables
  {
    if vs == [] then t else Step(o, Fold(o, t, vs[..|vs| - 1]), vs[|vs| - 1])
  }

  /** The tables the walk of the repository fills. */
  function Analyze(o: Oracles, root: FsNode): Tables
  {
    Fold(o, NoTables, Walk([], root))
  }

  lemma {:induction false} FoldAppend(o: Oracles, t: Tables, a: seq<Visit>, b: seq<Visit>)
    ensures Fold(o, t, a + b) == Fold(o, Fold(o, t, a), b)
    decreases |b|
  {
    if b == [] {
      assert a + b == a;
    } else {
      var b' := b[..|b| - 1];
      assert (a + b)[..|a + b| - 1] == a + b';
      assert (a + b)[|a + b| - 1] == b[|b| - 1];
      FoldAppend(o, t, a, b');
    }
  }

  // ---------------------------------------------------------------------
  // The imperative code.

  /** The dependency dispatch of the loop body. */
  method ImportsOfFile(o: Oracles, ext: string, code: string) returns (imports: seq<string>)
    ensures imports == FileImports(o, ext, code)
  {
    if ext == ".py" {
      imports := Py.GetPythonImports(o.parsePython(code));
    } else if ext == ".js" || ext == ".ts" {
      imports := Js.GetJsImports(code);
    } else {
      imports := [];
    }
  }

  /** `for imp in imports: dependencies.append(...)`. */
  method AppendEdges(dependencies: seq<Edge>, rel: string, imports: seq<string>) returns (r: seq<Edge>)
    ensures |r| == |dependencies| + |imports| && r[..|dependencies|] == dependencies
    ensures forall i :: 0 <= i < |imports| ==> r[|dependencies| + i] == Edge(rel, imports[i])
    ensures r == dependencies + EdgesFrom(rel, imports)
  {
    r := dependencies;
    for i := 0 to |imports|
      invariant r == dependencies + EdgesFrom(rel, imports[..i])
    {
      assert imports[..i + 1][..i] == imports[..i];
      r := r + [Edge(rel, imports[i])];
    }
    assert imports[..|imports|] == imports;
  }

  /** The body of `for file in files`. */
  method ProcessFile(o: Oracles, tables: Tables, v: Visit) returns (after: Tables)
    ensures after == Step(o, tables, v)
  {
    after := tables;
    var rel := RelPath(v.dir, v.name);
    var ext := Ext(v.name);
    if Lower(ext) !in CodeExtensions {
      return;
    }
    if v.content.None? {
      return;
    }
    var code := v.content.value;
    var lang := DetectLanguage(ext);
    var summaries := tables.summaries[rel := o.explainCode(code, rel)];
    var security := tables.security[rel := o.securityScan(code, rel, lang)];
    var tests := tables.tests[rel := o.generateTests(code, rel, lang)];
    var imports := ImportsOfFile(o, ext, code);
    var dependencies := AppendEdges(tables.dependencies, rel, imports);
    after := Tables(summaries, security, tests, dependencies);
  }

  /** `for file in files`: the loop body on each file in turn. */
  method ProcessFiles(o: Oracles, tables: Tables, files: seq<Visit>) returns (after: Tables)
    ensures after == Fold(o, tables, files)
  {
    after := tables;
    for i := 0 to |files|
      invariant after == Fold(o, tables, files[..i])
    {
      assert files[..i + 1][..i] == files[..i];
      after := ProcessFile(o, after, files[i]);
    }
    assert files[..|files|] == files;
  }

  /** `os.walk` from node with the loop body: the directory's files first,
      then, once `dirs` is pruned, each remaining subdirectory in turn. */
  method WalkFrom(o: Oracles, dir: seq<string>, node: FsNode, tables: Tables) returns (after: Tables)
    ensures after == Fold(o, tables, Walk(dir, node))
    decreases node
  {
    after := tables;
    if node.NonDir? {
      return;
    }
    var files := FilesIn(dir, node.listing);
    var dirs := DirsIn(node.listing);
    dirs := Prune(dirs);
    after := ProcessFiles(o, tables, files);
    assert files + WalkEach(dir, node, dirs[..0]) == files;
    for i := 0 to |dirs|
      invariant after == Fold(o, tables, files + WalkEach(dir, node, dirs[..i]))
    {
      var d := dirs[i];
      assert d in node.listing;
      NextSubdirectory(o, tables, files, dir, node, dirs, i);
      after := WalkFrom(o, dir + [d.name], d.node, after);
    }
    assert dirs[..|dirs|] == dirs;
  }

  lemma NextSubdirectory(o: Oracles, tables: Tables, files: seq<Visit>, dir: seq<string>, node: FsNode,
                         dirs: seq<Entry>, i: nat)
    requires node.Dir? && i < |dirs| && forall d :: d in dirs ==> d in node.listing
    ensures dirs[i] in node.listing
    ensures Fold(o, tables, files + WalkEach(dir, node, dirs[..i + 1])) ==
            Fold(o, Fold(o, tables, files + WalkEach(dir, node, dirs[..i])), Walk(dir + [dirs[i].name], dirs[i].node))
  {
    var d := dirs[i];
    var done := files + WalkEach(dir, node, dirs[..i]);
    var sub := Walk(dir + [d.name], d.node);
    assert dirs[..i + 1][..i] == dirs[..i];
    assert WalkEach(dir, node, dirs[..i + 1]) == WalkEach(dir, node, dirs[..i]) + sub;
    assert files + WalkEach(dir, node, dirs[..i + 1]) == done + sub;
    FoldAppend(o, tables, done, sub);
  }

  /** `analyze_repo_dir`: the folder tree and its text, the tables filled
      by the walk, and the architecture text asked for with the tree text. */
  method AnalyzeRepoDir(o: Oracles, rootPath: string, repoName: string, root: FsNode) returns (report: Report)
    ensures var tree := TreeOf(RootName(rootPath), root);
            var text := JoinLines(Lines(tree, 0));
            var t := Analyze(o, root);
            report == Report(repoName, tree, text, t.summaries, t.security, t.tests, t.dependencies,
                             o.architectureDiagram(repoName, text))
  {
    var folderTree := BuildFolderTree(rootPath, root);
    var folderTreeText := FolderTreeToText(folderTree, 0);
    var tables := WalkFrom(o, [], root, NoTables);
    var architecture := o.architectureDiagram(repoName, folderTreeText);
    report := Report(repoName, folderTree, folderTreeText, tables.summaries, tables.security,
                     tables.tests, tables.dependencies, architecture);
  }

  // ---------------------------------------------------------------------
  // Properties.

  ghost predicate SameKeys(t: Tables)
  {
    t.summaries.Keys == t.security.Keys == t.tests.Keys
  }

  /** The three dictionaries always have the same keys. */
  lemma {:induction false} KeysAgree(o: Oracles, t: Tables, vs: seq<Visit>)
    requires SameKeys(t)
    ensures SameKeys(Fold(o, t, vs))
    decreases |vs|
  {
    if vs != [] {
      KeysAgree(o, t, vs[..|vs| - 1]);
    }
  }

  /** The visit v is analysed and its entries are stored under rel. */
  predicate AnalysedAs(v: Visit, rel: string)
  {
    Analysed(v) && RelPath(v.dir, v.name) == rel
  }

  lemma StepKeys(o: Oracles, t: Tables, v: Visit, rel: string)
    ensures rel in Step(o, t, v).summaries <==> rel in t.summaries || AnalysedAs(v, rel)
  {
  }

  /** Some visit of vs is analysed and stored under rel. */
  ghost predicate AnalysedAmong(vs: seq<Visit>, rel: string)
  {
    exists v :: v in vs && AnalysedAs(v, rel)
  }

  lemma AnalysedAmongSnoc(vs: seq<Visit>, rel: string)
    requires vs != []
    ensures AnalysedAmong(vs, rel) <==> AnalysedAmong(vs[..|vs| - 1], rel) || AnalysedAs(vs[|vs| - 1], rel)
  {
    var init := vs[..|vs| - 1];
    var last := vs[|vs| - 1];
    assert vs == init + [last];
    if AnalysedAmong(vs, rel) && !AnalysedAs(last, rel) {
      var v :| v in vs && AnalysedAs(v, rel);
      assert v in init;
    }
  }

  /** A file is a key of the dictionaries exactly when some visited file
      with that relative path passed the extension filter and was read. */
  lemma {:induction false} KeysAreAnalysedFiles(o: Oracles, vs: seq<Visit>, rel: string)
    ensures rel in Fold(o, NoTables, vs).summaries <==>
              exists v :: v in vs && Analysed(v) && RelPath(v.dir, v.name) == rel
    decreases |vs|
  {
    if vs != [] {
      var init := vs[..|vs| - 1];
      KeysAreAnalysedFiles(o, init, rel);
      StepKeys(o, Fold(o, NoTables, init), vs[|vs| - 1], rel);
      AnalysedAmongSnoc(vs, rel);
    }
    assert AnalysedAmong(vs, rel) <==> exists v :: v in vs && Analysed(v) && RelPath(v.dir, v.name) == rel;
  }

  /** The entries r holds for v's path are the answers for v's text. */
  ghost predicate EntriesFor(o: Oracles, r: Tables, v: Visit)
    requires Analysed(v)
  {
    var rel := RelPath(v.dir, v.name);
    var code := v.content.value;
    var lang := DetectLanguage(Ext(v.name));
    rel in r.summaries && r.summaries[rel] == o.explainCode(code, rel) &&
    rel in r.security && r.security[rel] == o.securityScan(code, rel, lang) &&
    rel in r.tests && r.tests[rel] == o.generateTests(code, rel, lang)
  }

  lemma StepStores(o: Oracles, t: Tables, v: Visit)
    requires Analysed(v)
    ensures EntriesFor(o, Step(o, t, v), v)
  {
  }

  lemma StepKeeps(o: Oracles, t: Tables, v: Visit, w: Visit)
    requires Analysed(w) && EntriesFor(o, t, w)
    requires !AnalysedAs(v, RelPath(w.dir, w.name))
    ensures EntriesFor(o, Step(o, t, v), w)
  {
  }

  /** When several files share a relative path, the last one analysed
      decides its entries: each entry is the answer for that file's text. */
  lemma {:induction false} LastAnalysisWins(o: Oracles, t: Tables, vs: seq<Visit>, i: nat)
    requires i < |vs| && Analysed(vs[i])
    requires forall j :: i < j < |vs| && Analysed(vs[j]) ==>
               RelPath(vs[j].dir, vs[j].name) != RelPath(vs[i].dir, vs[i].name)
    ensures var rel := RelPath(vs[i].dir, vs[i].name);
            var code := vs[i].content.value;
            var lang := DetectLanguage(Ext(vs[i].name));
            var r := Fold(o, t, vs);
            rel in r.summaries && r.summaries[rel] == o.explainCode(code, rel) &&
            rel in r.security && r.security[rel] == o.securityScan(code, rel, lang) &&
            rel in r.tests && r.tests[rel] == o.generateTests(code, rel, lang)
    decreases |vs|
  {
    var init := vs[..|vs| - 1];
    var last := vs[|vs| - 1];
    if i == |vs| - 1 {
      StepStores(o, Fold(o, t, init), last);
    } else {
      assert init[i] == vs[i];
      forall j | i < j < |init| && Analysed(init[j])
        ensures RelPath(init[j].dir, init[j].name) != RelPath(init[i].dir, init[i].name)
      {
        assert init[j] == vs[j];
      }
      LastAnalysisWins(o, t, init, i);
      StepKeeps(o, Fold(o, t, init), last, vs[i]);
    }
    assert EntriesFor(o, Fold(o, t, vs), vs[i]);
  }

  /** The edges of all the visits, in visit order. */
  function AllEdges(o: Oracles, vs: seq<Visit>): seq<Edge>
  {
    if vs == [] then [] else AllEdges(o, vs[..|vs| - 1]) + EdgesOf(o, vs[|vs| - 1])
  }

  lemma StepDependencies(o: Oracles, t: Tables, v: Visit)
    ensures Step(o, t, v).dependencies == t.dependencies + EdgesOf(o, v)
  {
  }

  /** The dependency list is the edges of each analysed file, file after
      file, each file's edges in the order its extractor found them. */
  lemma {:induction false} DependenciesInVisitOrder(o: Oracles, t: Tables, vs: seq<Visit>)
    ensures Fold(o, t, vs).dependencies == t.dependencies + AllEdges(o, vs)
    decreases |vs|
  {
    if vs != [] {
      var init := vs[..|vs| - 1];
      var v := vs[|vs| - 1];
      DependenciesInVisitOrder(o, t, init);
      calc {
        Fold(o, t, vs).dependencies;
        { StepDependencies(o, Fold(o, t, init), v); }
        Fold(o, t, init).dependencies + EdgesOf(o, v);
        (t.dependencies + AllEdges(o, init)) + EdgesOf(o, v);
        { ConcatAssoc(t.dependencies, AllEdges(o, init), EdgesOf(o, v)); }
        t.dependencies + (AllEdges(o, init) + EdgesOf(o, v));
        t.dependencies + AllEdges(o, vs);
      }
    }
  }

  ghost predicate SourcesAreKeys(t: Tables)
  {
    forall e :: e in t.dependencies ==> e.source in t.summaries
  }

  /** Every edge starts at an analysed file. */
  lemma {:induction false} EdgeSourcesAreKeys(o: Oracles, t: Tables, vs: seq<Visit>)
    requires SourcesAreKeys(t)
    ensures SourcesAreKeys(Fold(o, t, vs))
    decreases |vs|
  {
    if vs != [] {
      var before := Fold(o, t, vs[..|vs| - 1]);
      EdgeSourcesAreKeys(o, t, vs[..|vs| - 1]);
      var v := vs[|vs| - 1];
      if Analysed(v) {
        var after := Step(o, before, v);
        forall e | e in after.dependencies ensures e.source in after.summaries {
          if e !in before.dependencies {
            var es := EdgesOf(o, v);
            assert e in es;
            var k :| 0 <= k < |es| && es[k] == e;
          }
        }
      }
    }
  }

  /** A file whose read fails leaves no trace: dropping it from the walk
      changes nothing. */
  lemma UnreadableFileSkipped(o: Oracles, t: Tables, a: seq<Visit>, v: Visit, b: seq<Visit>)
    requires v.content.None?
    ensures Fold(o, t, a + [v] + b) == Fold(o, t, a + b)
  {
    FoldAppend(o, t, a + [v], b);
    FoldAppend(o, t, a, [v]);
    FoldAppend(o, t, a, b);
    assert Fold(o, Fold(o, t, a), [v]) == Step(o, Fold(o, t, a), v);
  }

  /** The dispatch compares the extension as written: a file whose
      extension is not exactly `.py`, `.js` or `.ts` adds no edge. */
  lemma DispatchIsCaseSensitive(o: Oracles, v: Visit)
    requires Ext(v.name) != ".py" && Ext(v.name) != ".js" && Ext(v.name) != ".ts"
    ensures EdgesOf(o, v) == []
  {
  }

  /** A readable file with the extension `.PY` passes the case-insensitive
      filter, so it gets its three entries, but it adds no edge. */
  lemma UpperCasePythonFileHasNoEdges(o: Oracles, v: Visit)
    requires Ext(v.name) == ".PY" && v.content.Some?
    ensures Analysed(v) && EdgesOf(o, v) == []
  {
    assert Lower(".PY") == ".py";
  }

  /** No key and no edge source contains a backslash. */
  lemma KeysHaveNoBackslash(o: Oracles, vs: seq<Visit>)
    ensures forall rel :: rel in Fold(o, NoTables, vs).summaries ==> '\\' !in rel
    ensures forall e :: e in Fold(o, NoTables, vs).dependencies ==> '\\' !in e.source
  {
    forall rel | rel in Fold(o, NoTables, vs).summaries ensures '\\' !in rel {
      KeysAreAnalysedFiles(o, vs, rel);
    }
    EdgeSourcesAreKeys(o, NoTables, vs);
  }

  /** The tables of a repository have as keys exactly the relative paths
      of its readable files with a code extension whose path crosses no
      pruned directory. */
  lemma AnalysedFilesOfRepository(o: Oracles, root: FsNode, rel: string)
    ensures rel in Analyze(o, root).summaries <==>
              exists v: Visit :: FileAt(root, v.dir, v.name, v.content) && NoExcludedDir(v.dir) && Analysed(v) &&
                          RelPath(v.dir, v.name) == rel
  {
    var vs := Walk([], root);
    KeysAreAnalysedFiles(o, vs, rel);
    if rel in Analyze(o, root).summaries {
      var v :| v in vs && Analysed(v) && RelPath(v.dir, v.name) == rel;
      WalkReachesExactly(root, v);
    }
    if exists v: Visit :: FileAt(root, v.dir, v.name, v.content) && NoExcludedDir(v.dir) && Analysed(v) &&
                   RelPath(v.dir, v.name) == rel {
      var v: Visit :| FileAt(root, v.dir, v.name, v.content) && NoExcludedDir(v.dir) && Analysed(v) &&
               RelPath(v.dir, v.name) == rel;
      WalkReachesExactly(root, v);
    }
  }
}
