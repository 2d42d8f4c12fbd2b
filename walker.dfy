/** The directory walk of the analyser (GIT-BE/analysis_service.py,
    `os.walk` with `dirs[:]` pruning).

    `os.walk` is top-down: it yields a directory's files, in listing order,
    before descending into its subdirectories, and it descends only into
    the subdirectories left in `dirs` after the loop body has pruned it.
    A walk is described here by the files it reaches, in the order the
    loop body sees them. */
module RepoWalk {
  import opened Wrappers
  import opened FolderTree

  /** One file handed to the loop body: the directory names from the
      repository root down to it, its name, and its text (None when
      reading it fails). */
  datatype Visit = Visit(dir: seq<string>, name: string, content: Option<string>)

  /** The non-directory entries of a listing, in listing order: the
      `files` that `os.walk` yields with `dir`. */
  function FilesIn(dir: seq<string>, listing: seq<Entry>): (vs: seq<Visit>)
    ensures forall v :: v in vs ==> v.dir == dir && Entry(v.name, NonDir(v.content)) in listing
    ensures forall e :: e in listing && e.node.NonDir? ==> Visit(dir, e.name, e.node.content) in vs
  {
    if listing == [] then []
    else
      var e := listing[0];
      (if e.node.NonDir? then [Visit(dir, e.name, e.node.content)] else []) + FilesIn(dir, listing[1..])
  }

  /** The directory entries of a listing, in listing order: the `dirs` that
      `os.walk` yields. */
  function DirsIn(listing: seq<Entry>): (ds: seq<Entry>)
    ensures forall d :: d in ds <==> d in listing && d.node.Dir?
  {
    if listing == [] then []
    else (if listing[0].node.Dir? then [listing[0]] else []) + DirsIn(listing[1..])
  }

  /** `dirs[:] = [d for d in dirs if d not in {...}]`: the subdirectories
      the walk still descends into, in their order. */
  function Prune(ds: seq<Entry>): (r: seq<Entry>)
    ensures forall d :: d in r <==> d in ds && !IsExcluded(d.name)
  {
    if ds == [] then []
    else (if IsExcluded(ds[0].name) then [] else [ds[0]]) + Prune(ds[1..])
  }

  /** The files the loop body sees when the walk starts at node, whose
      path from the repository root is dir. A file that is not a
      directory yields nothing. */
  function Walk(dir: seq<string>, node: FsNode): seq<Visit>
    decreases node, 1
  {
    match node
    case NonDir(_) => []
    case Dir(listing) => FilesIn(dir, listing) + WalkEach(dir, node, Prune(DirsIn(listing)))
  }

  /** The walks of the subdirectories ds of parent, one after the other. */
  function WalkEach(dir: seq<string>, parent: FsNode, ds: seq<Entry>): seq<Visit>
    requires parent.Dir? && forall d :: d in ds ==> d in parent.listing
    decreases parent, 0, |ds|
  {
    if ds == [] then []
    else
      var last := ds[|ds| - 1];
      assert last in parent.listing;
      WalkEach(dir, parent, ds[..|ds| - 1]) + Walk(dir + [last.name], last.node)
  }

  /** The repository holds, below node, a file with this name and content
      reached through the directories dirs. */
  ghost predicate FileAt(node: FsNode, dirs: seq<string>, name: string, content: Option<string>)
    decreases |dirs|
  {
    node.Dir? &&
    if dirs == [] then Entry(name, NonDir(content)) in node.listing
    else exists e :: e in node.listing && e.name == dirs[0] && FileAt(e.node, dirs[1..], name, content)
  }

  /** No name in the path is one of the pruned directory names. */
  ghost predicate NoExcludedDir(dirs: seq<string>)
  {
    forall k :: 0 <= k < |dirs| ==> !IsExcluded(dirs[k])
  }

  /** What a visit found below dir says about node. */
  ghost predicate FoundBelow(dir: seq<string>, node: FsNode, v: Visit)
  {
    |dir| <= |v.dir| && v.dir[..|dir|] == dir &&
    FileAt(node, v.dir[|dir|..], v.name, v.content) && NoExcludedDir(v.dir[|dir|..])
  }

  lemma DescendFound(dir: seq<string>, node: FsNode, e: Entry, v: Visit)
    requires node.Dir? && e in node.listing && !IsExcluded(e.name)
    requires FoundBelow(dir + [e.name], e.node, v)
    ensures FoundBelow(dir, node, v)
  {
    var below := v.dir[|dir|..];
    assert v.dir[..|dir|] == (dir + [e.name])[..|dir|] == dir;
    assert below[0] == e.name;
    assert below[1..] == v.dir[|dir + [e.name]|..];
    forall k | 0 <= k < |below| ensures !IsExcluded(below[k]) {
      if k > 0 { assert below[k] == below[1..][k - 1]; }
    }
  }

  /** Every file the walk reaches is a file of the repository at the
      visited path, and no directory on that path is a pruned one. */
  lemma {:induction false} WalkSound(dir: seq<string>, node: FsNode)
    ensures forall v :: v in Walk(dir, node) ==> FoundBelow(dir, node, v)
    decreases node, 1
  {
    if node.Dir? {
      var ds := Prune(DirsIn(node.listing));
      WalkEachSound(dir, node, ds);
      forall v | v in FilesIn(dir, node.listing) ensures FoundBelow(dir, node, v) {
        assert v.dir[..|dir|] == dir && v.dir[|dir|..] == [];
      }
    }
  }

  lemma {:induction false} WalkEachSound(dir: seq<string>, parent: FsNode, ds: seq<Entry>)
    requires parent.Dir? && forall d :: d in ds ==> d in parent.listing && !IsExcluded(d.name)
    ensures forall v :: v in WalkEach(dir, parent, ds) ==> FoundBelow(dir, parent, v)
    decreases parent, 0, |ds|
  {
    if ds != [] {
      var last := ds[|ds| - 1];
      assert last in parent.listing;
      WalkEachSound(dir, parent, ds[..|ds| - 1]);
      WalkSound(dir + [last.name], last.node);
      forall v | v in Walk(dir + [last.name], last.node) ensures FoundBelow(dir, parent, v) {
        DescendFound(dir, parent, last, v);
      }
    }
  }

  lemma {:induction false} WalkEachContains(dir: seq<string>, parent: FsNode, ds: seq<Entry>, d: Entry)
    requires parent.Dir? && forall x :: x in ds ==> x in parent.listing
    requires d in ds
    ensures forall v :: v in Walk(dir + [d.name], d.node) ==> v in WalkEach(dir, parent, ds)
    decreases |ds|
  {
    if ds[|ds| - 1] != d {
      assert d in ds[..|ds| - 1];
      WalkEachContains(dir, parent, ds[..|ds| - 1], d);
    }
  }

  /** The walk of a directory includes the walk of each subdirectory that
      is not pruned. */
  lemma SubwalkIncluded(dir: seq<string>, node: FsNode, e: Entry)
    requires node.Dir? && e in node.listing && e.node.Dir? && !IsExcluded(e.name)
    ensures forall v :: v in Walk(dir + [e.name], e.node) ==> v in Walk(dir, node)
  {
    var ds := Prune(DirsIn(node.listing));
    assert e in ds;
    WalkEachContains(dir, node, ds, e);
  }

  /** Every file of the repository whose path crosses no pruned directory
      is reached by the walk. */
  lemma {:induction false} WalkComplete(dir: seq<string>, node: FsNode, dirs: seq<string>, name: string, content: Option<string>)
    requires FileAt(node, dirs, name, content) && NoExcludedDir(dirs)
    ensures Visit(dir + dirs, name, content) in Walk(dir, node)
    decreases |dirs|
  {
    if dirs == [] {
      assert dir + dirs == dir;
      assert Visit(dir, name, content) in FilesIn(dir, node.listing);
    } else {
      var e :| e in node.listing && e.name == dirs[0] && FileAt(e.node, dirs[1..], name, content);
      assert NoExcludedDir(dirs[1..]) by {
        forall k | 0 <= k < |dirs[1..]| ensures !IsExcluded(dirs[1..][k]) { assert dirs[1..][k] == dirs[k + 1]; }
      }
      WalkComplete(dir + [e.name], e.node, dirs[1..], name, content);
      assert [e.name] + dirs[1..] == dirs;
      ConcatAssoc(dir, [e.name], dirs[1..]);
      SubwalkIncluded(dir, node, e);
    }
  }

  /** The walk from the repository root reaches exactly the files of the
      repository whose path crosses no pruned directory. */
  lemma WalkReachesExactly(root: FsNode, v: Visit)
    ensures v in Walk([], root) <==> FileAt(root, v.dir, v.name, v.content) && NoExcludedDir(v.dir)
  {
    WalkSound([], root);
    if FileAt(root, v.dir, v.name, v.content) && NoExcludedDir(v.dir) {
      WalkComplete([], root, v.dir, v.name, v.content);
      assert [] + v.dir == v.dir;
    }
    if v in Walk([], root) {
      assert v.dir[0..] == v.dir;
    }
  }
}
