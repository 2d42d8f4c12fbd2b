/** The structural import extractor (GIT-BE/fs_service.py,
    `get_python_imports`).

    `ast.parse` and `ast.walk` are not modelled: the extractor receives
    what they produce, the sequence of walked syntax nodes, or `None` when
    parsing raised. Only the two node kinds the extractor looks at are
    distinguished. */
module PythonImports {
  import opened Wrappers

  datatype PyNode =
    | Import(names: seq<string>)        // `import a, b.c as d`: the imported names `a`, `b.c`
    | ImportFrom(moduleName: Option<string>) // `from m import x`; None for `from . import x`
    | OtherNode

  /** What one walked node adds to the result. */
  function Contribution(n: PyNode): seq<string>
  {
    match n
    case Import(names) => names
    case ImportFrom(Some(m)) => if m != "" then [m] else []
    case ImportFrom(None) => []
    case OtherNode => []
  }

  /** The imports of the walked nodes, in walk order. */
  function ImportsOf(nodes: seq<PyNode>): seq<string>
  {
    if nodes == [] then [] else Contribution(nodes[0]) + ImportsOf(nodes[1..])
  }

  /** The extractor's result for a parse result. */
  function PythonImports(parsed: Option<seq<PyNode>>): seq<string>
  {
    match parsed
    case None => []
    case Some(nodes) => ImportsOf(nodes)
  }

  lemma {:induction false} ImportsOfAppend(a: seq<PyNode>, b: seq<PyNode>)
    ensures ImportsOf(a + b) == ImportsOf(a) + ImportsOf(b)
  {
    if a == [] {
      assert a + b == b;
    } else {
      var c := Contribution(a[0]);
      assert (a + b)[0] == a[0];
      assert (a + b)[1..] == a[1..] + b;
      calc {
        ImportsOf(a + b);
        c + ImportsOf(a[1..] + b);
        { ImportsOfAppend(a[1..], b); }
        c + (ImportsOf(a[1..]) + ImportsOf(b));
        (c + ImportsOf(a[1..])) + ImportsOf(b);
      }
    }
  }

  /** `get_python_imports`: a failed parse gives the empty list; otherwise
      every `Import` node adds all its names in order and every
      `ImportFrom` node its module when that is present and non-empty. */
  method GetPythonImports(parsed: Option<seq<PyNode>>) returns (imports: seq<string>)
    ensures parsed.None? ==> imports == []
    ensures imports == PythonImports(parsed)
  {
    imports := [];
    if parsed.None? {
      return;
    }
    var nodes := parsed.value;
    for i := 0 to |nodes|
      invariant imports == ImportsOf(nodes[..i])
    {
      var node := nodes[i];
      ImportsOfAppend(nodes[..i], [node]);
      assert nodes[..i + 1] == nodes[..i] + [node];
      assert ImportsOf([node]) == Contribution(node);
      match node {
        case Import(names) =>
          for j := 0 to |names|
            invariant imports == ImportsOf(nodes[..i]) + names[..j]
          {
            imports := imports + [names[j]];
            assert names[..j + 1] == names[..j] + [names[j]];
          }
        case ImportFrom(moduleName) =>
          if moduleName.Some? && moduleName.value != "" {
            imports := imports + [moduleName.value];
          }
        case OtherNode =>
      }
    }
    assert nodes[..|nodes|] == nodes;
  }

  /** Whether a node adds anything: an `Import`, or an `ImportFrom` with a
      non-empty module. */
  predicate Contributes(n: PyNode)
  {
    n.Import? || (n.ImportFrom? && n.moduleName.Some? && n.moduleName.value != "")
  }

  /** A name is extracted exactly when some walked node supplies it: as an
      alias of an `Import`, or as the non-empty module of an `ImportFrom`. */
  lemma {:induction false} ImportsOfMembers(nodes: seq<PyNode>, x: string)
    ensures x in ImportsOf(nodes) <==>
      exists i :: 0 <= i < |nodes| && ((nodes[i].Import? && x in nodes[i].names) ||
                                        (nodes[i] == ImportFrom(Some(x)) && x != ""))
  {
    if nodes != [] {
      ImportsOfMembers(nodes[1..], x);
      if x in ImportsOf(nodes[1..]) {
        var i :| 0 <= i < |nodes[1..]| && ((nodes[1..][i].Import? && x in nodes[1..][i].names) ||
                                          (nodes[1..][i] == ImportFrom(Some(x)) && x != ""));
        assert nodes[i + 1] == nodes[1..][i];
      }
      if exists i :: 0 <= i < |nodes| && ((nodes[i].Import? && x in nodes[i].names) ||
                                          (nodes[i] == ImportFrom(Some(x)) && x != "")) {
        var i :| 0 <= i < |nodes| && ((nodes[i].Import? && x in nodes[i].names) ||
                                      (nodes[i] == ImportFrom(Some(x)) && x != ""));
        if i > 0 { assert nodes[1..][i - 1] == nodes[i]; }
      }
    }
  }

  /** The nodes that contribute, in walk order. */
  function ContributingNodes(nodes: seq<PyNode>): (r: seq<PyNode>)
    ensures forall n :: n in r ==> Contributes(n)
  {
    if nodes == [] then []
    else if Contributes(nodes[0]) then [nodes[0]] + ContributingNodes(nodes[1..])
    else ContributingNodes(nodes[1..])
  }

  /** No other node contributes: dropping every node that is neither an
      `Import` nor an `ImportFrom` with a module leaves the result unchanged. */
  lemma {:induction false} OnlyImportNodesContribute(nodes: seq<PyNode>)
    ensures ImportsOf(ContributingNodes(nodes)) == ImportsOf(nodes)
  {
    if nodes != [] {
      OnlyImportNodesContribute(nodes[1..]);
      if Contributes(nodes[0]) {
        assert ([nodes[0]] + ContributingNodes(nodes[1..]))[1..] == ContributingNodes(nodes[1..]);
      }
    }
  }

  /** The number of alias names over all `Import` nodes. */
  function AliasCount(nodes: seq<PyNode>): nat
  {
    if nodes == [] then 0
    else (if nodes[0].Import? then |nodes[0].names| else 0) + AliasCount(nodes[1..])
  }

  /** The number of `ImportFrom` nodes with a non-empty module. */
  function FromCount(nodes: seq<PyNode>): nat
  {
    if nodes == [] then 0
    else (if nodes[0].ImportFrom? && Contributes(nodes[0]) then 1 else 0) + FromCount(nodes[1..])
  }

  /** With N alias names over the `import` statements and M `from`
      statements naming a module, exactly N + M names are extracted. */
  lemma {:induction false} ImportsCount(nodes: seq<PyNode>)
    ensures |ImportsOf(nodes)| == AliasCount(nodes) + FromCount(nodes)
  {
    if nodes != [] {
      ImportsCount(nodes[1..]);
    }
  }
}
