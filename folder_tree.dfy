/** The folder-tree builder and its text rendering (GIT-BE/fs_service.py,
    `build_folder_tree`, `build_node` and `folder_tree_to_text`).

    The filesystem is a value: what a path holds is either a directory,
    whose listing is given in the order the operating system lists it, or
    something that is not a directory (a regular file, or nothing at all).
    The content of a non-directory is only used by the repository walker. */
module FolderTree {
  import opened Wrappers

  datatype FsNode = Dir(listing: seq<Entry>) | NonDir(content: Option<string>)
  datatype Entry = Entry(name: string, node: FsNode)

  /** The `{name, type, children}` dictionaries of the source: a folder
      node carries its children, a file node has none. */
  datatype Tree = Folder(name: string, children: seq<Tree>) | File(name: string)

  /** Directory names that are skipped at every level below the root. */
  predicate IsExcluded(name: string)
  {
    name == ".git" || name == "__pycache__" || name == ".venv" || name == "venv"
  }

  // ---------------------------------------------------------------------
  // Ordering of names: Python compares strings by code point,
  // lexicographically, a proper prefix coming first.

  predicate LexLe(a: string, b: string)
  {
    |a| == 0 || (|b| > 0 && (a[0] < b[0] || (a[0] == b[0] && LexLe(a[1..], b[1..]))))
  }

  lemma LexLeTotal(a: string, b: string)
    ensures LexLe(a, b) || LexLe(b, a)
  {
    if |a| > 0 && |b| > 0 && a[0] == b[0] {
      LexLeTotal(a[1..], b[1..]);
    }
  }

  lemma LexLeTrans(a: string, b: string, c: string)
    requires LexLe(a, b) && LexLe(b, c)
    ensures LexLe(a, c)
  {
    if |a| > 0 && |b| > 0 && |c| > 0 && a[0] == b[0] == c[0] {
      LexLeTrans(a[1..], b[1..], c[1..]);
    }
  }

  // ---------------------------------------------------------------------
  // `sorted(os.listdir(path))`: the listing ordered by name.

  ghost predicate SortedByName(es: seq<Entry>)
  {
    forall i, j :: 0 <= i < j < |es| ==> LexLe(es[i].name, es[j].name)
  }

  ghost predicate DistinctNames(es: seq<Entry>)
  {
    forall i, j :: 0 <= i < j < |es| ==> es[i].name != es[j].name
  }

  /** Insertion of e before the first entry whose name it does not exceed. */
  function InsertByName(e: Entry, es: seq<Entry>): (r: seq<Entry>)
    ensures multiset(r) == multiset(es) + multiset{e}
    ensures forall x :: x in r ==> x == e || x in es
  {
    if es == [] then [e]
    else if LexLe(e.name, es[0].name) then [e] + es
    else
      assert es == [es[0]] + es[1..];
      [es[0]] + InsertByName(e, es[1..])
  }

  /** Inserting into a sorted listing keeps it sorted. */
  lemma {:induction false} InsertKeepsSorted(e: Entry, es: seq<Entry>)
    requires SortedByName(es)
    ensures SortedByName(InsertByName(e, es))
  {
    if es != [] {
      if LexLe(e.name, es[0].name) {
        forall j | 0 < j < |es| ensures LexLe(e.name, es[j].name) {
          LexLeTrans(e.name, es[0].name, es[j].name);
        }
      } else {
        var rest := InsertByName(e, es[1..]);
        InsertKeepsSorted(e, es[1..]);
        LexLeTotal(e.name, es[0].name);
        forall x | x in rest ensures LexLe(es[0].name, x.name) {
          if x != e {
            var k :| 0 <= k < |es[1..]| && es[1..][k] == x;
            assert es[k + 1] == x;
          }
        }
        var r := [es[0]] + rest;
        forall i, j | 0 <= i < j < |r| ensures LexLe(r[i].name, r[j].name) {
          assert r[j] == rest[j - 1];
          if i > 0 { assert r[i] == rest[i - 1]; }
        }
      }
    }
  }

  function SortByName(es: seq<Entry>): (r: seq<Entry>)
    ensures SortedByName(r)
    ensures multiset(r) == multiset(es)
    ensures forall x :: x in r ==> x in es
  {
    if es == [] then []
    else
      assert es == [es[0]] + es[1..];
      InsertKeepsSorted(es[0], SortByName(es[1..]));
      InsertByName(es[0], SortByName(es[1..]))
  }

  lemma InsertKeepsDistinct(e: Entry, es: seq<Entry>)
    requires DistinctNames(es)
    requires forall x :: x in es ==> x.name != e.name
    ensures DistinctNames(InsertByName(e, es))
  {
    if es != [] && !LexLe(e.name, es[0].name) {
      var rest := InsertByName(e, es[1..]);
      InsertKeepsDistinct(e, es[1..]);
      assert forall x :: x in es[1..] ==> x.name != es[0].name;
      assert forall x :: x in rest ==> x.name != es[0].name;
      assert InsertByName(e, es) == [es[0]] + rest;
    }
  }

  lemma {:induction false} SortKeepsDistinct(es: seq<Entry>)
    requires DistinctNames(es)
    ensures DistinctNames(SortByName(es))
  {
    if es != [] {
      var s := SortByName(es[1..]);
      SortKeepsDistinct(es[1..]);
      assert forall x :: x in es[1..] ==> x.name != es[0].name;
      InsertKeepsDistinct(es[0], s);
    }
  }

  // ---------------------------------------------------------------------
  // `build_node`: the tree a path denotes.

  /** The names of the entries that survive the exclusion filter, in order. */
  function KeptNames(es: seq<Entry>): seq<string>
  {
    if es == [] then []
    else if IsExcluded(es[0].name) then KeptNames(es[1..])
    else [es[0].name] + KeptNames(es[1..])
  }

  function Names(ts: seq<Tree>): seq<string>
  {
    if ts == [] then [] else [ts[0].name] + Names(ts[1..])
  }

  /** The node `build_node` returns for a path called `name` that holds `fs`. */
  function TreeOf(name: string, fs: FsNode): (t: Tree)
    ensures t.name == name
    ensures t.File? <==> fs.NonDir?
    decreases fs, 1
  {
    match fs
    case NonDir(_) => File(name)
    case Dir(listing) => Folder(name, ChildrenOf(fs, SortByName(listing)))
  }

  /** The children built from the (sorted) entries of directory `parent`. */
  function ChildrenOf(parent: FsNode, entries: seq<Entry>): (cs: seq<Tree>)
    requires parent.Dir?
    requires forall e :: e in entries ==> e in parent.listing
    ensures Names(cs) == KeptNames(entries)
    decreases parent, 0, |entries|
  {
    if entries == [] then []
    else if IsExcluded(entries[0].name) then ChildrenOf(parent, entries[1..])
    else
      assert entries[0] in parent.listing;
      [TreeOf(entries[0].name, entries[0].node)] + ChildrenOf(parent, entries[1..])
  }

  /** The children built from the entries from i on: those of entry i,
      then those of the rest. */
  lemma ChildrenOfAt(parent: FsNode, entries: seq<Entry>, i: nat)
    requires parent.Dir? && forall e :: e in entries ==> e in parent.listing
    requires i < |entries|
    ensures entries[i] in parent.listing
    ensures ChildrenOf(parent, entries[i..]) ==
              (if IsExcluded(entries[i].name) then [] else [TreeOf(entries[i].name, entries[i].node)]) +
              ChildrenOf(parent, entries[i + 1..])
  {
    assert entries[i..][0] == entries[i];
    assert entries[i..][1..] == entries[i + 1..];
  }

  /** `build_node`. */
  method BuildNode(name: string, fs: FsNode) returns (t: Tree)
    ensures t == TreeOf(name, fs)
    decreases fs, 1
  {
    if fs.NonDir? {
      return File(name);
    }
    var children := BuildChildren(fs, SortByName(fs.listing));
    return Folder(name, children);
  }

  /** The loop of `build_node` over the sorted listing: excluded names are
      skipped, every other entry is built in turn. */
  method BuildChildren(parent: FsNode, entries: seq<Entry>) returns (children: seq<Tree>)
    requires parent.Dir? && forall e :: e in entries ==> e in parent.listing
    ensures children == ChildrenOf(parent, entries)
    decreases parent, 0
  {
    children := [];
    assert entries[0..] == entries;
    for i := 0 to |entries|
      invariant children + ChildrenOf(parent, entries[i..]) == ChildrenOf(parent, entries)
    {
      var entry := entries[i];
      ChildrenOfAt(parent, entries, i);
      if IsExcluded(entry.name) {
        continue;
      }
      var child := BuildNode(entry.name, entry.node);
      children := children + [child];
    }
    assert entries[|entries|..] == [];
  }

  /** `os.path.basename`: the text after the last `/`. */
  function BaseName(path: string): (r: string)
    ensures '/' !in r
    ensures |r| <= |path| && r == path[|path| - |r|..]
    ensures |r| < |path| ==> path[|path| - |r| - 1] == '/'
  {
    if |path| == 0 || path[|path| - 1] == '/' then ""
    else BaseName(path[..|path| - 1]) + [path[|path| - 1]]
  }

  /** `os.path.basename(path) or path`: the root's own name. */
  function RootName(path: string): (r: string)
    ensures (path == "" || path[|path| - 1] == '/') ==> r == path
    ensures !(path == "" || path[|path| - 1] == '/') ==>
              r != "" && '/' !in r && |r| <= |path| && r == path[|path| - |r|..] &&
              (|r| < |path| ==> path[|path| - |r| - 1] == '/')
  {
    var b := BaseName(path);
    if b == "" then path else b
  }

  /** `build_folder_tree`. */
  method BuildFolderTree(rootPath: string, fs: FsNode) returns (t: Tree)
    ensures t == TreeOf(RootName(rootPath), fs)
  {
    t := BuildNode(RootName(rootPath), fs);
  }

  // ---------------------------------------------------------------------
  // Properties of the built tree.

  /** No node strictly below `t` carries an excluded name. */
  ghost predicate NoExcludedBelow(t: Tree)
  {
    t.Folder? ==> forall c :: c in t.children ==> !IsExcluded(c.name) && NoExcludedBelow(c)
  }

  /** Every folder's children are in strictly ascending order of name. */
  ghost predicate ChildrenStrictlySorted(t: Tree)
  {
    t.Folder? ==>
      (forall i, j :: 0 <= i < j < |t.children| ==>
         LexLe(t.children[i].name, t.children[j].name) && t.children[i].name != t.children[j].name) &&
      (forall c :: c in t.children ==> ChildrenStrictlySorted(c))
  }

  /** What a real filesystem guarantees: a directory lists each name once. */
  ghost predicate WellFormed(fs: FsNode)
  {
    fs.Dir? ==> DistinctNames(fs.listing) && forall e :: e in fs.listing ==> WellFormed(e.node)
  }

  lemma NamesAt(ts: seq<Tree>, i: nat)
    requires i < |ts|
    ensures |Names(ts)| == |ts| && Names(ts)[i] == ts[i].name
  {
    if i > 0 { NamesAt(ts[1..], i - 1); }
  }

  lemma {:induction false} KeptNamesMember(es: seq<Entry>, x: string)
    requires x in KeptNames(es)
    ensures !IsExcluded(x) && exists e :: e in es && e.name == x
  {
    if es != [] && !(IsExcluded(es[0].name) == false && x == es[0].name) {
      if IsExcluded(es[0].name) || x != es[0].name {
        KeptNamesMember(es[1..], x);
        var e :| e in es[1..] && e.name == x;
        assert e in es;
      }
    }
  }

  /** Keeping the surviving names is a subsequence: sorted and distinct
      inputs give strictly ascending names. */
  lemma {:induction false} KeptNamesOrdered(es: seq<Entry>)
    requires SortedByName(es) && DistinctNames(es)
    ensures forall i, j :: 0 <= i < j < |KeptNames(es)| ==>
              LexLe(KeptNames(es)[i], KeptNames(es)[j]) && KeptNames(es)[i] != KeptNames(es)[j]
  {
    if es != [] {
      KeptNamesOrdered(es[1..]);
      var rest := KeptNames(es[1..]);
      forall x | x in rest ensures LexLe(es[0].name, x) && es[0].name != x {
        KeptNamesMember(es[1..], x);
        var e :| e in es[1..] && e.name == x;
        var k :| 0 <= k < |es[1..]| && es[1..][k] == e;
        assert es[k + 1] == e;
      }
      if !IsExcluded(es[0].name) {
        var r := [es[0].name] + rest;
        forall i, j | 0 <= i < j < |r| ensures LexLe(r[i], r[j]) && r[i] != r[j] {
          if i == 0 { assert r[j] == rest[j - 1] && rest[j - 1] in rest; }
          else { assert r[i] == rest[i - 1] && r[j] == rest[j - 1]; }
        }
      }
    }
  }

  lemma {:induction false} SortedWithoutDistinct(es: seq<Entry>)
    requires SortedByName(es)
    ensures forall i, j :: 0 <= i < j < |KeptNames(es)| ==> LexLe(KeptNames(es)[i], KeptNames(es)[j])
  {
    if es != [] {
      SortedWithoutDistinct(es[1..]);
      var rest := KeptNames(es[1..]);
      forall x | x in rest ensures LexLe(es[0].name, x) {
        KeptNamesMember(es[1..], x);
        var e :| e in es[1..] && e.name == x;
        var k :| 0 <= k < |es[1..]| && es[1..][k] == e;
        assert es[k + 1] == e;
      }
      if !IsExcluded(es[0].name) {
        var r := [es[0].name] + rest;
        forall i, j | 0 <= i < j < |r| ensures LexLe(r[i], r[j]) {
          if i == 0 { assert r[j] == rest[j - 1] && rest[j - 1] in rest; }
          else { assert r[i] == rest[i - 1] && r[j] == rest[j - 1]; }
        }
      }
    }
  }

  /** Below the root, no node is named `.git`, `__pycache__`, `.venv` or
      `venv`, at any depth; the root keeps its own name whatever it is. */
  lemma {:induction false} NoExcludedNames(name: string, fs: FsNode)
    ensures TreeOf(name, fs).name == name
    ensures NoExcludedBelow(TreeOf(name, fs))
    decreases fs, 1
  {
    if fs.Dir? {
      var entries := SortByName(fs.listing);
      var cs := ChildrenOf(fs, entries);
      forall c | c in cs ensures !IsExcluded(c.name) && NoExcludedBelow(c) {
        var i :| 0 <= i < |cs| && cs[i] == c;
        NamesAt(cs, i);
        assert c.name in KeptNames(entries);
        KeptNamesMember(entries, c.name);
        ChildrenAreBuiltFromEntries(fs, entries, c);
      }
    }
  }

  /** Each child comes from an entry of the parent directory, built from it. */
  lemma {:induction false} ChildrenAreBuiltFromEntries(parent: FsNode, entries: seq<Entry>, c: Tree)
    requires parent.Dir?
    requires forall e :: e in entries ==> e in parent.listing
    requires c in ChildrenOf(parent, entries)
    ensures exists e :: e in parent.listing && c == TreeOf(e.name, e.node) && NoExcludedBelow(c)
    decreases parent, 0, |entries|
  {
    var e := entries[0];
    assert e in parent.listing;
    if !IsExcluded(e.name) && c == TreeOf(e.name, e.node) {
      NoExcludedNames(e.name, e.node);
    } else {
      ChildrenAreBuiltFromEntries(parent, entries[1..], c);
    }
  }

  /** The children of a built folder carry exactly the non-excluded names
      of the directory listing (as a multiset), in non-decreasing order of
      name, and — on a real filesystem — in strictly ascending order. */
  lemma {:induction false} ChildrenAreSortedListing(name: string, listing: seq<Entry>)
    ensures multiset(Names(TreeOf(name, Dir(listing)).children)) == multiset(KeptNames(listing))
    ensures ChildrenSortedHere(TreeOf(name, Dir(listing)))
    ensures DistinctNames(listing) ==> ChildrenStrictlySortedHere(TreeOf(name, Dir(listing)))
  {
    var fs := Dir(listing);
    var entries := SortByName(listing);
    var cs := ChildrenOf(fs, entries);
    SortKeepsKeptNames(listing);
    SortedWithoutDistinct(entries);
    forall i, j | 0 <= i < j < |cs| ensures LexLe(cs[i].name, cs[j].name) {
      NamesAt(cs, i);
      NamesAt(cs, j);
    }
    if DistinctNames(listing) {
      SortKeepsDistinct(listing);
      KeptNamesOrdered(entries);
      forall i, j | 0 <= i < j < |cs| ensures cs[i].name != cs[j].name {
        NamesAt(cs, i);
        NamesAt(cs, j);
      }
    }
  }

  ghost predicate ChildrenSortedHere(t: Tree)
  {
    t.Folder? ==> forall i, j :: 0 <= i < j < |t.children| ==> LexLe(t.children[i].name, t.children[j].name)
  }

  ghost predicate ChildrenStrictlySortedHere(t: Tree)
  {
    t.Folder? ==> forall i, j :: 0 <= i < j < |t.children| ==>
      LexLe(t.children[i].name, t.children[j].name) && t.children[i].name != t.children[j].name
  }

  lemma KeptNamesCons(x: Entry, rest: seq<Entry>)
    ensures KeptNames([x] + rest) == (if IsExcluded(x.name) then [] else [x.name]) + KeptNames(rest)
  {
    assert ([x] + rest)[0] == x;
    assert ([x] + rest)[1..] == rest;
  }

  /** Inserting past the head keeps the head's name first. */
  lemma InsertPassesHead(e: Entry, es: seq<Entry>)
    requires es != [] && !LexLe(e.name, es[0].name)
    ensures KeptNames(InsertByName(e, es)) ==
              (if IsExcluded(es[0].name) then [] else [es[0].name]) + KeptNames(InsertByName(e, es[1..]))
  {
    KeptNamesCons(es[0], InsertByName(e, es[1..]));
  }

  lemma MultisetSwap<T>(a: seq<T>, b: seq<T>, c: seq<T>)
    ensures multiset(a + (b + c)) == multiset(b + (a + c))
  {
  }

  lemma InsertStep(e: Entry, es: seq<Entry>)
    requires es != [] && !LexLe(e.name, es[0].name)
    requires multiset(KeptNames(InsertByName(e, es[1..]))) == multiset(KeptNames([e] + es[1..]))
    ensures multiset(KeptNames(InsertByName(e, es))) == multiset(KeptNames([e] + es))
  {
    var ke := if IsExcluded(e.name) then [] else [e.name];
    var k0 := if IsExcluded(es[0].name) then [] else [es[0].name];
    var tail := KeptNames(es[1..]);
    InsertPassesHead(e, es);
    KeptNamesCons(e, es[1..]);
    assert multiset(KeptNames(InsertByName(e, es))) == multiset(k0 + (ke + tail));
    assert KeptNames(es) == k0 + tail;
    KeptNamesCons(e, es);
    MultisetSwap(k0, ke, tail);
  }

  lemma {:induction false} InsertKeepsKeptNames(e: Entry, es: seq<Entry>)
    ensures multiset(KeptNames(InsertByName(e, es))) == multiset(KeptNames([e] + es))
  {
    if es != [] && !LexLe(e.name, es[0].name) {
      InsertKeepsKeptNames(e, es[1..]);
      InsertStep(e, es);
    }
  }

  lemma {:induction false} SortKeepsKeptNames(es: seq<Entry>)
    ensures multiset(KeptNames(SortByName(es))) == multiset(KeptNames(es))
  {
    if es != [] {
      SortKeepsKeptNames(es[1..]);
      InsertKeepsKeptNames(es[0], SortByName(es[1..]));
      assert ([es[0]] + SortByName(es[1..]))[1..] == SortByName(es[1..]);
    }
  }

  /** On a real filesystem every folder of the built tree, at every depth,
      lists its children in strictly ascending order of name. */
  lemma {:induction false} TreeStrictlySorted(name: string, fs: FsNode)
    requires WellFormed(fs)
    ensures ChildrenStrictlySorted(TreeOf(name, fs))
    decreases fs, 1
  {
    if fs.Dir? {
      ChildrenAreSortedListing(name, fs.listing);
      var t := TreeOf(name, fs);
      forall c | c in t.children ensures ChildrenStrictlySorted(c) {
        ChildIsSortedTree(fs, SortByName(fs.listing), c);
      }
    }
  }

  lemma {:induction false} ChildIsSortedTree(parent: FsNode, entries: seq<Entry>, c: Tree)
    requires parent.Dir? && WellFormed(parent)
    requires forall e :: e in entries ==> e in parent.listing
    requires c in ChildrenOf(parent, entries)
    ensures ChildrenStrictlySorted(c)
    decreases parent, 0, |entries|
  {
    var e := entries[0];
    assert e in parent.listing;
    if !IsExcluded(e.name) && c == TreeOf(e.name, e.node) {
      TreeStrictlySorted(e.name, e.node);
    } else {
      ChildIsSortedTree(parent, entries[1..], c);
    }
  }

  // ---------------------------------------------------------------------
  // `folder_tree_to_text`.

  /** The `indent`-th prefix: two spaces per depth level. */
  function Indent(d: nat): (r: string)
    ensures |r| == 2 * d && forall i :: 0 <= i < |r| ==> r[i] == ' '
  {
    if d == 0 then "" else "  " + Indent(d - 1)
  }

  /** A node's name, with `/` appended exactly for folders. */
  function Label(t: Tree): string
  {
    match t
    case Folder(name, _) => name + "/"
    case File(name) => name
  }

  function NodeCount(t: Tree): nat
  {
    match t
    case File(_) => 1
    case Folder(_, cs) => 1 + ChildrenCount(cs)
  }

  function ChildrenCount(cs: seq<Tree>): nat
  {
    if cs == [] then 0 else NodeCount(cs[0]) + ChildrenCount(cs[1..])
  }

  /** The lines of the rendering, depth first: each node's line is its
      depth's indentation followed by its label, and a folder's line comes
      before the lines of its children. */
  function Lines(t: Tree, d: nat): (r: seq<string>)
    ensures |r| == NodeCount(t)
    decreases t
  {
    match t
    case File(name) => [Indent(d) + name]
    case Folder(name, cs) => [Indent(d) + name + "/"] + ChildLines(cs, d + 1)
  }

  function ChildLines(cs: seq<Tree>, d: nat): (r: seq<string>)
    ensures |r| == ChildrenCount(cs)
    decreases cs
  {
    if cs == [] then [] else Lines(cs[0], d) + ChildLines(cs[1..], d)
  }

  /** The first line renders the node itself: 2·d spaces, its name, and `/`
      exactly when it is a folder; every later line (its descendants) is
      indented deeper, by at least 2·(d+1) spaces. */
  lemma {:induction false} LinesShape(t: Tree, d: nat)
    ensures Lines(t, d)[0] == Indent(d) + t.name + (if t.Folder? then "/" else "")
    ensures forall i :: 0 < i < |Lines(t, d)| ==>
              |Lines(t, d)[i]| >= 2 * (d + 1) && Lines(t, d)[i][..2 * (d + 1)] == Indent(d + 1)
  {
    if t.Folder? {
      ChildLinesIndented(t.children, d + 1);
      assert Lines(t, d)[1..] == ChildLines(t.children, d + 1);
    } else {
      assert Indent(d) + t.name + "" == Indent(d) + t.name;
    }
  }

  lemma {:induction false} LinesIndented(t: Tree, d: nat)
    ensures forall i :: 0 <= i < |Lines(t, d)| ==> |Lines(t, d)[i]| >= 2 * d && Lines(t, d)[i][..2 * d] == Indent(d)
    decreases t, 1
  {
    var r := Lines(t, d);
    assert r[0] == Indent(d) + Label(t);
    assert r[0][..2 * d] == Indent(d);
    if t.Folder? {
      var below := ChildLines(t.children, d + 1);
      ChildLinesIndented(t.children, d + 1);
      forall i | 0 < i < |r| ensures |r[i]| >= 2 * d && r[i][..2 * d] == Indent(d) {
        assert r[i] == below[i - 1];
        assert Indent(d + 1)[..2 * d] == Indent(d);
        assert r[i][..2 * d] == r[i][..2 * (d + 1)][..2 * d];
      }
    }
  }

  lemma {:induction false} ChildLinesIndented(cs: seq<Tree>, d: nat)
    ensures forall i :: 0 <= i < |ChildLines(cs, d)| ==>
              |ChildLines(cs, d)[i]| >= 2 * d && ChildLines(cs, d)[i][..2 * d] == Indent(d)
    decreases cs, 0
  {
    if cs != [] {
      LinesIndented(cs[0], d);
      ChildLinesIndented(cs[1..], d);
    }
  }

  /** `"\n".join(lines)`. */
  function JoinLines(ls: seq<string>): string
  {
    if |ls| == 0 then "" else if |ls| == 1 then ls[0] else ls[0] + "\n" + JoinLines(ls[1..])
  }

  /** The index of the first newline of `s`. */
  function FirstNewline(s: string): (i: nat)
    requires '\n' in s
    ensures i < |s| && s[i] == '\n' && forall k :: 0 <= k < i ==> s[k] != '\n'
  {
    if s[0] == '\n' then 0
    else
      assert '\n' in s[1..] by { var k :| 0 <= k < |s| && s[k] == '\n'; assert s[1..][k - 1] == '\n'; }
      1 + FirstNewline(s[1..])
  }

  /** `s.split("\n")`. */
  function SplitLines(s: string): (r: seq<string>)
    ensures |r| >= 1
    decreases |s|
  {
    if '\n' !in s then [s]
    else
      var i := FirstNewline(s);
      [s[..i]] + SplitLines(s[i + 1..])
  }

  lemma {:induction false} JoinAppend(a: seq<string>, b: seq<string>)
    requires a != [] && b != []
    ensures JoinLines(a + b) == JoinLines(a) + "\n" + JoinLines(b)
  {
    var h := a[0] + "\n";
    if |a| == 1 {
      assert (a + b)[1..] == b;
    } else {
      calc {
        JoinLines(a + b);
      ==  { assert (a + b)[1..] == a[1..] + b; }
        h + JoinLines(a[1..] + b);
      ==  { JoinAppend(a[1..], b); }
        h + ((JoinLines(a[1..]) + "\n") + JoinLines(b));
      ==  { ConcatAssoc(h, JoinLines(a[1..]) + "\n", JoinLines(b));
            ConcatAssoc(h, JoinLines(a[1..]), "\n"); }
        JoinLines(a) + "\n" + JoinLines(b);
      }
    }
  }

  lemma SplitNoNewline(s: string)
    requires '\n' !in s
    ensures SplitLines(s) == [s]
  {
  }

  lemma SplitUnfold(s: string)
    requires '\n' in s
    ensures SplitLines(s) == [s[..FirstNewline(s)]] + SplitLines(s[FirstNewline(s) + 1..])
  {
  }

  lemma {:induction false} FirstNewlineOfJoin(a: string, b: string)
    ensures '\n' in a + "\n" + b
    ensures '\n' !in a ==> FirstNewline(a + "\n" + b) == |a|
    ensures '\n' in a ==> FirstNewline(a + "\n" + b) == FirstNewline(a)
  {
    var s := a + "\n" + b;
    assert s[|a|] == '\n';
    assert forall k :: 0 <= k < |a| ==> s[k] == a[k];
  }

  lemma SplitAtFirstNewline(a: string, b: string)
    requires '\n' !in a
    ensures SplitLines(a + "\n" + b) == [a] + SplitLines(b)
  {
    var s := a + "\n" + b;
    FirstNewlineOfJoin(a, b);
    assert s[..|a|] == a;
    assert s[|a| + 1..] == b;
    SplitUnfold(s);
  }

  /** Splitting distributes over a joining newline. */
  lemma {:induction false} SplitAtNewline(a: string, b: string)
    ensures SplitLines(a + "\n" + b) == SplitLines(a) + SplitLines(b)
    decreases |a|, 1
  {
    if '\n' !in a {
      SplitAtFirstNewline(a, b);
    } else {
      SplitAtLaterNewline(a, b);
    }
  }

  lemma JoinedSlices(a: string, b: string, i: nat)
    requires i < |a|
    ensures (a + "\n" + b)[..i] == a[..i]
    ensures (a + "\n" + b)[i + 1..] == a[i + 1..] + "\n" + b
  {
  }

  lemma {:induction false} SplitAtLaterNewline(a: string, b: string)
    requires '\n' in a
    ensures SplitLines(a + "\n" + b) == SplitLines(a) + SplitLines(b)
    decreases |a|, 0
  {
    var s := a + "\n" + b;
    var i := FirstNewline(a);
    var a2 := a[i + 1..];
    var p := a[..i];
    calc {
      SplitLines(s);
    ==  { FirstNewlineOfJoin(a, b); SplitUnfold(s); }
      [s[..i]] + SplitLines(s[i + 1..]);
    ==  { JoinedSlices(a, b, i); }
      [p] + SplitLines(a2 + "\n" + b);
    ==  { SplitAtNewline(a2, b); }
      [p] + (SplitLines(a2) + SplitLines(b));
    ==  { ConcatAssoc([p], SplitLines(a2), SplitLines(b)); }
      ([p] + SplitLines(a2)) + SplitLines(b);
    ==  { SplitUnfold(a); }
      SplitLines(a) + SplitLines(b);
    }
  }

  lemma {:induction false} SplitJoin(ls: seq<string>)
    requires ls != []
    requires forall i :: 0 <= i < |ls| ==> '\n' !in ls[i]
    ensures SplitLines(JoinLines(ls)) == ls
  {
    SplitNoNewline(ls[0]);
    if |ls| > 1 {
      SplitJoin(ls[1..]);
      SplitAtNewline(ls[0], JoinLines(ls[1..]));
      assert ls == [ls[0]] + ls[1..];
    }
  }

  /** No name anywhere in the tree contains a newline. */
  ghost predicate NoNewlineNames(t: Tree)
  {
    '\n' !in t.name && (t.Folder? ==> forall c :: c in t.children ==> NoNewlineNames(c))
  }

  lemma {:induction false} LinesHaveNoNewline(t: Tree, d: nat)
    requires NoNewlineNames(t)
    ensures forall i :: 0 <= i < |Lines(t, d)| ==> '\n' !in Lines(t, d)[i]
    decreases t
  {
    var head := Indent(d) + Label(t);
    assert '\n' !in Indent(d);
    assert '\n' !in head;
    if t.Folder? {
      ChildLinesHaveNoNewline(t.children, d + 1);
    }
  }

  lemma {:induction false} ChildLinesHaveNoNewline(cs: seq<Tree>, d: nat)
    requires forall c :: c in cs ==> NoNewlineNames(c)
    ensures forall i :: 0 <= i < |ChildLines(cs, d)| ==> '\n' !in ChildLines(cs, d)[i]
    decreases cs
  {
    if cs != [] {
      LinesHaveNoNewline(cs[0], d);
      ChildLinesHaveNoNewline(cs[1..], d);
    }
  }

  /** When no name contains a newline, the rendered text splits back into
      exactly the preorder lines: one line per node and no trailing
      newline. */
  lemma RenderedLines(t: Tree, d: nat)
    requires NoNewlineNames(t)
    ensures SplitLines(JoinLines(Lines(t, d))) == Lines(t, d)
    ensures |SplitLines(JoinLines(Lines(t, d)))| == NodeCount(t)
  {
    LinesHaveNoNewline(t, d);
    SplitJoin(Lines(t, d));
  }

  /** The rendering of each tree of `cs` at depth `d`. */
  function RenderEach(cs: seq<Tree>, d: nat): seq<string>
  {
    if cs == [] then [] else [JoinLines(Lines(cs[0], d))] + RenderEach(cs[1..], d)
  }

  lemma {:induction false} RenderEachAppend(cs: seq<Tree>, c: Tree, d: nat)
    ensures RenderEach(cs + [c], d) == RenderEach(cs, d) + [JoinLines(Lines(c, d))]
  {
    if cs != [] {
      RenderEachAppend(cs[1..], c, d);
      assert (cs + [c])[1..] == cs[1..] + [c];
    }
  }

  /** Joining a block of lines as one line or line by line gives the same text. */
  lemma JoinBlock(p: seq<string>, block: seq<string>, x: seq<string>)
    requires p != [] && block != []
    ensures JoinLines(p + [JoinLines(block)] + x) == JoinLines(p + block + x)
  {
    if x == [] {
      assert p + [JoinLines(block)] + x == p + [JoinLines(block)];
      assert p + block + x == p + block;
      JoinAppend(p, [JoinLines(block)]);
      JoinAppend(p, block);
    } else {
      assert p + [JoinLines(block)] + x == p + ([JoinLines(block)] + x);
      assert p + block + x == p + (block + x);
      JoinAppend(p, [JoinLines(block)] + x);
      JoinAppend([JoinLines(block)], x);
      JoinAppend(p, block + x);
      JoinAppend(block, x);
    }
  }

  lemma {:induction false} JoinRenderEach(p: seq<string>, cs: seq<Tree>, d: nat)
    requires p != []
    ensures JoinLines(p + RenderEach(cs, d)) == JoinLines(p + ChildLines(cs, d))
    decreases cs
  {
    if cs == [] {
      assert p + RenderEach(cs, d) == p == p + ChildLines(cs, d);
    } else {
      var block := Lines(cs[0], d);
      var rest := ChildLines(cs[1..], d);
      JoinRenderEach(p + [JoinLines(block)], cs[1..], d);
      ConcatAssoc(p, [JoinLines(block)], RenderEach(cs[1..], d));
      JoinBlock(p, block, rest);
      ConcatAssoc(p, block, rest);
    }
  }

  /** `folder_tree_to_text`: the node's own line, then one rendered text
      per child. The text is the preorder lines joined by newlines. */
  method FolderTreeToText(t: Tree, indent: nat) returns (text: string)
    ensures text == JoinLines(Lines(t, indent))
    decreases t, 1
  {
    var prefix := Indent(indent);
    var lines: seq<string>;
    if t.Folder? {
      var rendered := RenderChildren(t.children, indent + 1);
      lines := [prefix + t.name + "/"] + rendered;
      JoinRenderEach([prefix + t.name + "/"], t.children, indent + 1);
    } else {
      lines := [prefix + t.name];
    }
    text := JoinLines(lines);
  }

  /** The loop of `folder_tree_to_text` over the children: each child's
      whole text, rendered one level deeper, in order. */
  method RenderChildren(cs: seq<Tree>, d: nat) returns (rendered: seq<string>)
    ensures rendered == RenderEach(cs, d)
    decreases cs, 0
  {
    rendered := [];
    for i := 0 to |cs|
      invariant rendered == RenderEach(cs[..i], d)
    {
      var childText := FolderTreeToText(cs[i], d);
      RenderEachAppend(cs[..i], cs[i], d);
      assert cs[..i + 1] == cs[..i] + [cs[i]];
      rendered := rendered + [childText];
    }
    assert cs[..|cs|] == cs;
  }
}
