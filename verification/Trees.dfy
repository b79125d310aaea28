/** Working-tree snapshots and the trees commits store
    (crates/softfig-vcs/src/walk.rs, crates/softfig-vcs/src/tree.rs).

    A commit writes one tree row per directory of the snapshot, so the stored
    tree has the snapshot's shape; one datatype serves for both. Blobs are kept
    as plaintext. */
module Trees {
  import opened Paths

  /** The permission bits a snapshot tracks (0o7777). */
  const MODE_MASK_SPAN := 0x1000

  /** `mode & 0o7777`. */
  function MaskMode(mode: nat): (bits: nat)
    ensures bits <= 0xFFF && (mode - bits) % 0x1000 == 0
  {
    mode % MODE_MASK_SPAN
  }

  datatype FileData = FileData(content: Bytes, mode: nat)

  function Masked(d: FileData): FileData {
    d.(mode := MaskMode(d.mode))
  }

  datatype Node = File(data: FileData) | Dir(children: map<Name, Node>)

  /** The snapshot every builder starts from: a root directory with no entries. */
  const EmptyTree := Dir(map[])

  /** The node a walk down the tree along `p` reaches. */
  function NodeAt(n: Node, p: Path): Option<Node>
    decreases |p|
  {
    if p == [] then Some(n)
    else if n.Dir? && p[0] in n.children then NodeAt(n.children[p[0]], p[1..])
    else None
  }

  /** The file at `p`, if the walk ends in one. */
  function FileAt(n: Node, p: Path): Option<FileData> {
    match NodeAt(n, p)
    case Some(File(d)) => Some(d)
    case _ => None
  }

  predicate DirAt(n: Node, p: Path) {
    match NodeAt(n, p)
    case Some(Dir(_)) => true
    case _ => false
  }

  lemma {:induction false} NodeAtAppend(n: Node, p: Path, q: Path)
    ensures NodeAt(n, p + q) == if NodeAt(n, p).Some? then NodeAt(NodeAt(n, p).value, q) else None
    decreases |p|
  {
    if p == [] {
      assert p + q == q;
    } else {
      assert (p + q)[0] == p[0] && (p + q)[1..] == p[1..] + q;
      if n.Dir? && p[0] in n.children {
        NodeAtAppend(n.children[p[0]], p[1..], q);
      }
    }
  }

  lemma NodeAtChild(n: Node, k: Name, rel: Path)
    requires n.Dir?
    ensures NodeAt(n, [k] + rel) == if k in n.children then NodeAt(n.children[k], rel) else None
  {
    assert ([k] + rel)[1..] == rel;
  }

  /** Everything strictly above a node of the tree is a directory. */
  lemma AncestorsAreDirs(n: Node, p: Path, q: Path)
    requires NodeAt(n, p).Some? && StrictlyUnder(p, q)
    ensures DirAt(n, q)
  {
    NodeAtAppend(n, q, Strip(p, q));
  }

  /** Every path the tree holds a node at. */
  function NodePaths(n: Node): (paths: set<Path>) {
    match n
    case File(_) => {[]}
    case Dir(c) => {[]} + set k, q | k in c.Keys && q in NodePaths(c[k]) :: [k] + q
  }

  lemma {:induction false} NodePathsAreWalks(n: Node, p: Path)
    ensures p in NodePaths(n) <==> NodeAt(n, p).Some?
    decreases |p|
  {
    if p != [] && n.Dir? {
      var c := n.children;
      if p[0] in c {
        NodePathsAreWalks(c[p[0]], p[1..]);
        assert [p[0]] + p[1..] == p;
      }
      if p in NodePaths(n) {
        var k, q :| k in c.Keys && q in NodePaths(c[k]) && p == [k] + q;
        assert p[0] == k && p[1..] == q;
      }
    }
  }

  // ---- insertion -------------------------------------------------------------

  /** `WalkSnapshot::insert_file`: parents are created on the way, a file in the
      way of a parent drops the insertion, an existing node at `p` is replaced,
      and the empty path inserts nothing. */
  function InsertFile(n: Node, p: Path, d: FileData): (r: Node)
    requires n.Dir?
    ensures r.Dir?
    decreases |p|
  {
    if p == [] then n
    else if |p| == 1 then Dir(n.children[p[0] := File(Masked(d))])
    else
      var next := if p[0] in n.children then n.children[p[0]] else EmptyTree;
      if next.File? then n else Dir(n.children[p[0] := InsertFile(next, p[1..], d)])
  }

  /** A file sits strictly between the root and `p`, so nothing can be put at `p`. */
  ghost predicate BlockedByFile(n: Node, p: Path) {
    exists k :: 0 < k < |p| && FileAt(n, p[..k]).Some?
  }

  lemma BlockedBelow(n: Node, p: Path)
    requires n.Dir? && |p| > 1
    ensures p[0] !in n.children ==> !BlockedByFile(n, p)
    ensures p[0] in n.children && n.children[p[0]].File? ==> BlockedByFile(n, p)
    ensures p[0] in n.children && n.children[p[0]].Dir? ==>
              (BlockedByFile(n, p) <==> BlockedByFile(n.children[p[0]], p[1..]))
  {
    assert p[..1][0] == p[0] && p[..1][1..] == [];
    assert NodeAt(n, p[..1]) == if p[0] in n.children then Some(n.children[p[0]]) else None;
    forall k | 1 < k < |p|
      ensures NodeAt(n, p[..k]) == if p[0] in n.children then NodeAt(n.children[p[0]], p[1..][..k - 1]) else None
    {
      assert p[..k][0] == p[0] && p[..k][1..] == p[1..][..k - 1];
    }
    if p[0] in n.children && n.children[p[0]].Dir? {
      var m := n.children[p[0]];
      if BlockedByFile(m, p[1..]) {
        var j :| 0 < j < |p[1..]| && FileAt(m, p[1..][..j]).Some?;
        assert FileAt(n, p[..j + 1]).Some?;
      }
      if BlockedByFile(n, p) {
        var k :| 0 < k < |p| && FileAt(n, p[..k]).Some?;
        assert k != 1;
        assert FileAt(m, p[1..][..k - 1]).Some?;
      }
    }
  }

  /** What one insertion does to the file at every path, for every tree. */
  lemma {:induction false} InsertFileAt(n: Node, p: Path, d: FileData, q: Path)
    requires n.Dir?
    ensures FileAt(InsertFile(n, p, d), q) ==
            if p == [] || BlockedByFile(n, p) then FileAt(n, q)
            else if q == p then Some(Masked(d))
            else if StrictlyUnder(q, p) then None
            else FileAt(n, q)
    decreases |p|
  {
    if |p| == 1 {
      assert !BlockedByFile(n, p);
      if q != [] && q[0] == p[0] {
        assert p == [q[0]] && StartsWith(q, p);
        assert q == p <==> q[1..] == [];
        assert NodeAt(InsertFile(n, p, d), q) == NodeAt(File(Masked(d)), q[1..]);
      } else {
        assert !StartsWith(q, p);
      }
    } else if |p| > 1 {
      BlockedBelow(n, p);
      var next := if p[0] in n.children then n.children[p[0]] else EmptyTree;
      if next.Dir? {
        assert !BlockedByFile(EmptyTree, p[1..]) by {
          forall k | 0 < k < |p[1..]|
            ensures FileAt(EmptyTree, p[1..][..k]).None?
          {
          }
        }
        if q != [] && q[0] == p[0] {
          InsertFileAt(next, p[1..], d, q[1..]);
          assert q == [q[0]] + q[1..] && p == [p[0]] + p[1..];
          assert StrictlyUnder(q, p) <==> StrictlyUnder(q[1..], p[1..]);
        } else {
          assert !StartsWith(q, p);
        }
      }
    }
  }

  // ---- empty directories -----------------------------------------------------

  /** No directory below the root is empty: what pruning establishes. */
  predicate NoEmptyDirs(n: Node) {
    n.Dir? ==>
      forall k | k in n.children ::
        n.children[k] != EmptyTree && NoEmptyDirs(n.children[k])
  }

  lemma {:induction false} InsertKeepsNoEmptyDirs(n: Node, p: Path, d: FileData)
    requires n.Dir? && NoEmptyDirs(n)
    ensures NoEmptyDirs(InsertFile(n, p, d))
    ensures p != [] ==> InsertFile(n, p, d) != EmptyTree
    decreases |p|
  {
    if |p| == 1 {
      assert p[0] in InsertFile(n, p, d).children;
    } else if |p| > 1 {
      var next := if p[0] in n.children then n.children[p[0]] else EmptyTree;
      if next.Dir? {
        InsertKeepsNoEmptyDirs(next, p[1..], d);
      }
      assert p[0] in InsertFile(n, p, d).children;
    }
  }

  /** `prune_empty_dirs`, bottom-up. A directory left empty by pruning its own
      children goes too. The `.keep` test in the source never fires on an empty
      directory, so it is not a case here. */
  function Prune(n: Node): (r: Node)
    ensures n.Dir? <==> r.Dir?
  {
    match n
    case File(_) => n
    case Dir(c) => Dir(map k | k in c && Prune(c[k]) != EmptyTree :: Prune(c[k]))
  }

  lemma {:induction false} PruneMakesNoEmptyDirs(n: Node)
    ensures NoEmptyDirs(Prune(n))
  {
    if n.Dir? {
      forall k | k in n.children
        ensures NoEmptyDirs(Prune(n.children[k]))
      {
        PruneMakesNoEmptyDirs(n.children[k]);
      }
    }
  }

  /** Pruning never touches a file. */
  lemma {:induction false} PruneKeepsFiles(n: Node, p: Path)
    ensures FileAt(Prune(n), p) == FileAt(n, p)
    decreases |p|
  {
    if p != [] && n.Dir? && p[0] in n.children {
      PruneKeepsFiles(n.children[p[0]], p[1..]);
    }
  }

  lemma {:induction false} PruneIsIdentity(n: Node)
    requires NoEmptyDirs(n)
    ensures Prune(n) == n
  {
    if n.Dir? {
      forall k | k in n.children
        ensures Prune(n.children[k]) == n.children[k]
      {
        PruneIsIdentity(n.children[k]);
      }
      assert (map k | k in n.children && Prune(n.children[k]) != EmptyTree :: Prune(n.children[k])) == n.children;
    }
  }

  /** Some file sits strictly under `p`. */
  ghost predicate HasFileUnder(n: Node, p: Path) {
    exists q :: StrictlyUnder(q, p) && FileAt(n, q).Some?
  }

  /** Without empty directories, a non-root directory is one that shelters a file. */
  lemma DirIffFileUnder(n: Node, p: Path)
    requires NoEmptyDirs(n) && p != []
    ensures DirAt(n, p) <==> HasFileUnder(n, p)
  {
    if DirAt(n, p) {
      var q := FileUnderDir(n, p);
    }
    if HasFileUnder(n, p) {
      var q :| StrictlyUnder(q, p) && FileAt(n, q).Some?;
      AncestorsAreDirs(n, q, p);
    }
  }

  lemma {:induction false} FileUnderDir(n: Node, p: Path) returns (q: Path)
    requires NoEmptyDirs(n) && DirAt(n, p)
    requires p != [] || n != EmptyTree
    ensures StrictlyUnder(q, p) && FileAt(n, q).Some?
    decreases n
  {
    if p == [] {
      var k :| k in n.children;
      var r := [];
      if n.children[k].Dir? {
        r := FileUnderDir(n.children[k], []);
      }
      NodeAtChild(n, k, r);
      q := [k] + r;
    } else {
      var c := n.children[p[0]];
      if p[1..] == [] {
        assert p == [p[0]];
      }
      var r := FileUnderDir(c, p[1..]);
      q := [p[0]] + r;
      assert p == [p[0]] + p[1..];
      assert q[1..] == r;
    }
  }

  /** The file map is the whole tree: two directory trees without empty
      directories that hold the same files are equal. */
  lemma {:induction false} SameFilesSameTree(a: Node, b: Node)
    requires a.Dir? && b.Dir? && NoEmptyDirs(a) && NoEmptyDirs(b)
    requires forall p :: FileAt(a, p) == FileAt(b, p)
    ensures a == b
    decreases a
  {
    assert a.children.Keys <= b.children.Keys by { ChildNamesAgree(a, b); }
    assert b.children.Keys <= a.children.Keys by { ChildNamesAgree(b, a); }
    forall k | k in a.children
      ensures a.children[k] == b.children[k]
    {
      var x, y := a.children[k], b.children[k];
      forall p
        ensures FileAt(x, p) == FileAt(y, p)
      {
        NodeAtChild(a, k, p);
        NodeAtChild(b, k, p);
        assert FileAt(a, [k] + p) == FileAt(b, [k] + p);
      }
      assert FileAt(x, []) == FileAt(y, []);
      if x.Dir? {
        SameFilesSameTree(x, y);
      }
    }
  }

  lemma ChildNamesAgree(a: Node, b: Node)
    requires a.Dir? && b.Dir? && NoEmptyDirs(a)
    requires forall p :: FileAt(a, p) == FileAt(b, p)
    ensures a.children.Keys <= b.children.Keys
  {
    forall k | k in a.children
      ensures k in b.children
    {
      var r := [];
      if a.children[k].Dir? {
        r := FileUnderDir(a.children[k], []);
      }
      NodeAtChild(a, k, r);
      NodeAtChild(b, k, r);
      assert FileAt(a, [k] + r) == FileAt(b, [k] + r);
    }
  }

  // ---- a tree as a file map --------------------------------------------------

  /** The tree's files are exactly those of the map. */
  ghost predicate Holds(n: Node, files: map<Path, FileData>) {
    forall p :: FileAt(n, p) == if p in files then Some(files[p]) else None
  }

  /** File paths as a working tree can have them: none is the root, none runs through another. */
  ghost predicate PrefixFree(paths: set<Path>) {
    && [] !in paths
    && forall p, q | p in paths && q in paths :: !StrictlyUnder(q, p)
  }

  /** Inserting a path clear of the others adds exactly that file. */
  lemma InsertHolds(n: Node, files: map<Path, FileData>, p: Path, d: FileData)
    requires n.Dir? && Holds(n, files)
    requires PrefixFree(files.Keys + {p})
    ensures Holds(InsertFile(n, p, d), files[p := Masked(d)])
  {
    if BlockedByFile(n, p) {
      var k :| 0 < k < |p| && FileAt(n, p[..k]).Some?;
      assert p[..k] in files.Keys + {p} && StrictlyUnder(p, p[..k]);
    }
    forall q
      ensures FileAt(InsertFile(n, p, d), q) ==
              if q in files[p := Masked(d)] then Some(files[p := Masked(d)][q]) else None
    {
      InsertFileAt(n, p, d, q);
      assert FileAt(n, q) == if q in files then Some(files[q]) else None;
      if StrictlyUnder(q, p) {
        assert q !in files.Keys + {p};
      }
    }
  }

  /** `WalkSnapshot::files`: every file of the tree. */
  function FilesOf(n: Node): map<Path, FileData> {
    map p | p in NodePaths(n) && FileAt(n, p).Some? :: FileAt(n, p).value
  }

  lemma FilesOfHeld(n: Node, files: map<Path, FileData>)
    requires Holds(n, files)
    ensures FilesOf(n) == files
  {
    forall p
      ensures p in FilesOf(n) <==> p in files
      ensures p in files ==> FilesOf(n)[p] == files[p]
    {
      NodePathsAreWalks(n, p);
      assert FileAt(n, p) == if p in files then Some(files[p]) else None;
    }
  }

  lemma EmptyHoldsNothing()
    ensures Holds(EmptyTree, map[])
  {
    forall p
      ensures FileAt(EmptyTree, p) == None
    {
    }
  }
}
