/** The composed view of the committed trees (crates/softfig-fuse/src/tree_view.rs). */
module Views {
  import opened Paths
  import opened Trees
  import opened Chains

  /** 0o040755, the mode of every stored directory row. */
  const DIR_MODE := 0x41ED

  datatype Entry = Blob(data: FileData) | DirEntry(mode: nat)

  /** A flat, path-keyed view. */
  type View = map<Path, Entry>

  type Refs = map<Ref, Node>

  function EntryOf(n: Node): Entry {
    match n
    case File(d) => Blob(d)
    case Dir(_) => DirEntry(DIR_MODE)
  }

  /** What a view of the single tree `n` shows at `p`. */
  function TreeEntry(n: Node, p: Path): Option<Entry> {
    match NodeAt(n, p)
    case Some(m) => Some(EntryOf(m))
    case None => None
  }

  function Lookup(v: View, p: Path): Option<Entry> {
    if p in v then Some(v[p]) else None
  }

  /** `v` shows exactly the tree `n`. */
  ghost predicate ShowsTree(v: View, n: Node) {
    forall p :: Lookup(v, p) == TreeEntry(n, p)
  }

  function BlobAt(v: View, p: Path): Option<FileData> {
    if p in v && v[p].Blob? then Some(v[p].data) else None
  }

  predicate DirIn(v: View, p: Path) {
    p in v && v[p].DirEntry?
  }

  /** The root is a directory and everything above an entry is one. */
  ghost predicate Closed(v: View) {
    && DirIn(v, [])
    && forall p, k | p in v && 0 <= k < |p| :: DirIn(v, p[..k])
  }

  lemma TreeViewClosed(v: View, n: Node)
    requires ShowsTree(v, n) && n.Dir?
    ensures Closed(v)
  {
    assert Lookup(v, []) == TreeEntry(n, []);
    forall p, k | p in v && 0 <= k < |p|
      ensures DirIn(v, p[..k])
    {
      assert Lookup(v, p) == TreeEntry(n, p);
      AncestorsAreDirs(n, p, p[..k]);
      assert Lookup(v, p[..k]) == TreeEntry(n, p[..k]);
    }
  }

  // ---- the union, pointwise --------------------------------------------------

  /** Shared chain `i` is composed: enabled, mounted, and its ref holds a tree. */
  predicate Grafted(refs: Refs, reg: Registry, i: int) {
    ActiveAt(reg, i) && reg.shared[i].refName in refs
  }

  predicate GraftedOver(refs: Refs, reg: Registry, i: int, p: Path) {
    Grafted(refs, reg, i) && StartsWith(p, reg.shared[i].mount.value)
  }

  predicate AboveGraft(refs: Refs, reg: Registry, i: int, p: Path) {
    Grafted(refs, reg, i) && StrictlyUnder(reg.shared[i].mount.value, p)
  }

  function DeviceTree(refs: Refs, reg: Registry): Node {
    if reg.device.refName in refs then refs[reg.device.refName] else EmptyTree
  }

  /** What shows at `p` when no composed chain is mounted over it: the device
      tree's entry, else a directory that leads to a graft point. */
  function UnderlayEntry(refs: Refs, reg: Registry, p: Path): Option<Entry> {
    match TreeEntry(DeviceTree(refs, reg), p)
    case Some(e) => Some(e)
    case None =>
      if exists i | 0 <= i < |reg.shared| :: AboveGraft(refs, reg, i, p)
      then Some(DirEntry(DIR_MODE)) else None
  }

  /** The entry the union shows at `p`: the owning shared chain answers for its
      own subtree once it has a commit, the underlay for everything else. */
  function UnionEntry(refs: Refs, reg: Registry, p: Path): Option<Entry> {
    match BestClaim(reg, p, |reg.shared|)
    case Some(i) =>
      if Grafted(refs, reg, i)
      then TreeEntry(refs[reg.shared[i].refName], Strip(p, reg.shared[i].mount.value))
      else UnderlayEntry(refs, reg, p)
    case None => UnderlayEntry(refs, reg, p)
  }

  ghost predicate ShowsUnion(v: View, refs: Refs, reg: Registry) {
    forall p :: Lookup(v, p) == UnionEntry(refs, reg, p)
  }

  /** Commits hold directory trees. */
  ghost predicate TreesAreDirs(refs: Refs) {
    forall r | r in refs :: refs[r].Dir?
  }

  lemma GraftedEntry(refs: Refs, reg: Registry, i: nat, p: Path)
    requires WellFormed(reg) && GraftedOver(refs, reg, i, p)
    ensures UnionEntry(refs, reg, p) == TreeEntry(refs[reg.shared[i].refName], Strip(p, reg.shared[i].mount.value))
  {
    assert Claims(reg, i, p);
    SoleClaimOwns(reg, i, p);
    assert Claims(reg, BestClaim(reg, p, |reg.shared|).value, p);
  }

  lemma UngraftedEntry(refs: Refs, reg: Registry, p: Path)
    requires WellFormed(reg) && forall i :: !GraftedOver(refs, reg, i, p)
    ensures UnionEntry(refs, reg, p) == UnderlayEntry(refs, reg, p)
  {
    var best := BestClaim(reg, p, |reg.shared|);
    if best.Some? {
      assert !GraftedOver(refs, reg, best.value, p);
    }
  }

  /** The union is a property of the set of active chains: the order chains are
      listed in, and so the order they are grafted in, does not show. */
  lemma UnionIgnoresOrder(refs: Refs, a: Registry, b: Registry, p: Path)
    requires WellFormed(a) && WellFormed(b) && a.device == b.device
    requires forall c | Active(c) :: c in a.shared <==> c in b.shared
    ensures UnionEntry(refs, a, p) == UnionEntry(refs, b, p)
  {
    UnderlayIgnoresOrder(refs, a, b, p);
    UnderlayIgnoresOrder(refs, b, a, p);
    if i :| GraftedOver(refs, a, i, p) {
      assert a.shared[i] in b.shared;
      var j :| 0 <= j < |b.shared| && b.shared[j] == a.shared[i];
      GraftedEntry(refs, a, i, p);
      GraftedEntry(refs, b, j, p);
    } else {
      UngraftedEntry(refs, a, p);
      forall j
        ensures !GraftedOver(refs, b, j, p)
      {
        if GraftedOver(refs, b, j, p) {
          assert b.shared[j] in a.shared;
          var i :| 0 <= i < |a.shared| && a.shared[i] == b.shared[j];
          assert GraftedOver(refs, a, i, p);
        }
      }
      UngraftedEntry(refs, b, p);
    }
  }

  lemma UnderlayIgnoresOrder(refs: Refs, a: Registry, b: Registry, p: Path)
    requires a.device == b.device
    requires forall c | Active(c) :: c in a.shared <==> c in b.shared
    ensures UnderlayEntry(refs, a, p).Some? ==> UnderlayEntry(refs, b, p) == UnderlayEntry(refs, a, p)
  {
    if i :| 0 <= i < |a.shared| && AboveGraft(refs, a, i, p) {
      assert a.shared[i] in b.shared;
      var j :| 0 <= j < |b.shared| && b.shared[j] == a.shared[i];
      assert AboveGraft(refs, b, j, p);
    }
  }

  // ---- building --------------------------------------------------------------

  /** What `expand` leaves at `p` once it has handled the rows named in `done`
      of directory `n`, which sits at `parent`. */
  function Expanded(before: View, parent: Path, n: Node, done: set<Name>, p: Path): Option<Entry> {
    if StrictlyUnder(p, parent) && p[|parent|] in done && NodeAt(n, Strip(p, parent)).Some?
    then TreeEntry(n, Strip(p, parent))
    else Lookup(before, p)
  }

  lemma ExpandedRow(parent: Path, n: Node, k: Name, p: Path)
    requires n.Dir? && k in n.children && StartsWith(p, parent + [k])
    ensures StrictlyUnder(p, parent) && p[|parent|] == k
    ensures NodeAt(n, Strip(p, parent)) == NodeAt(n.children[k], Strip(p, parent + [k]))
  {
    assert Strip(p, parent) == [k] + Strip(p, parent + [k]);
    NodeAtChild(n, k, Strip(p, parent + [k]));
  }

  /** What `graft` leaves at `p`. */
  function GraftedView(before: View, other: View, prefix: Path, p: Path): Option<Entry> {
    if StartsWith(p, prefix) then Lookup(other, Strip(p, prefix))
    else if p != [] && StrictlyUnder(prefix, p) && p !in before then Some(DirEntry(DIR_MODE))
    else Lookup(before, p)
  }

  class TreeView {
    var byPath: View

    /** `TreeView::empty`. */
    constructor Empty()
      ensures byPath == map[[] := DirEntry(DIR_MODE)]
    {
      byPath := map[[] := DirEntry(DIR_MODE)];
    }

    /** `TreeView::build`: the root row, then every nested row. */
    constructor Build(root: Node)
      requires root.Dir?
      ensures ShowsTree(byPath, root)
    {
      byPath := map[[] := DirEntry(DIR_MODE)];
      new;
      Expand([], root);
      forall p
        ensures Lookup(byPath, p) == TreeEntry(root, p)
      {
        assert Lookup(byPath, p) == Expanded(map[[] := DirEntry(DIR_MODE)], [], root, root.children.Keys, p);
        if p != [] {
          assert Strip(p, []) == p;
        }
      }
    }

    /** `expand`: one entry per row of directory `n` at `parent`, recursing into
        subdirectories. */
    method Expand(parent: Path, n: Node)
      requires n.Dir?
      modifies this
      ensures forall p :: Lookup(byPath, p) == Expanded(old(byPath), parent, n, n.children.Keys, p)
      decreases n
    {
      var todo := n.children.Keys;
      while todo != {}
        invariant todo <= n.children.Keys
        invariant forall p :: Lookup(byPath, p) == Expanded(old(byPath), parent, n, n.children.Keys - todo, p)
      {
        var k :| k in todo;
        var child := n.children[k];
        var path := parent + [k];
        ghost var before := byPath;
        byPath := byPath[path := EntryOf(child)];
        ghost var mid := byPath;
        if child.Dir? {
          Expand(path, child);
        }
        todo := todo - {k};
        forall p
          ensures Lookup(byPath, p) == Expanded(old(byPath), parent, n, n.children.Keys - todo, p)
        {
          assert Lookup(before, p) == Expanded(old(byPath), parent, n, n.children.Keys - (todo + {k}), p);
          assert Lookup(byPath, p) ==
              if child.Dir? then Expanded(mid, path, child, child.children.Keys, p) else Lookup(mid, p);
          assert StrictlyUnder(p, parent) && p[|parent|] == k ==> p[..|parent| + 1] == path;
          if StartsWith(p, path) {
            ExpandedRow(parent, n, k, p);
            assert p == path <==> Strip(p, path) == [];
          }
        }
      }
    }

    /** The directories strictly between the root and `prefix`, where missing. */
    method SynthesizeAncestors(prefix: Path)
      requires prefix != []
      modifies this
      ensures forall p :: Lookup(byPath, p) ==
                if p != [] && StrictlyUnder(prefix, p) && p !in old(byPath) then Some(DirEntry(DIR_MODE))
                else Lookup(old(byPath), p)
    {
      var depth := |prefix| - 1;
      while depth > 0
        invariant 0 <= depth < |prefix|
        invariant forall p :: Lookup(byPath, p) ==
                    if |p| > depth && StrictlyUnder(prefix, p) && p !in old(byPath) then Some(DirEntry(DIR_MODE))
                    else Lookup(old(byPath), p)
      {
        var anc := prefix[..depth];
        if anc !in byPath {
          byPath := byPath[anc := DirEntry(DIR_MODE)];
        }
        depth := depth - 1;
        assert forall p | |p| == depth + 1 && StrictlyUnder(prefix, p) :: p == anc;
      }
    }

    /** Every entry of `other`, re-keyed under `prefix`. */
    method InsertUnder(other: TreeView, prefix: Path)
      requires other != this
      modifies this
      ensures forall p :: Lookup(byPath, p) ==
                if StartsWith(p, prefix) && Strip(p, prefix) in other.byPath
                then Lookup(other.byPath, Strip(p, prefix))
                else Lookup(old(byPath), p)
    {
      var todo := other.byPath.Keys;
      while todo != {}
        invariant todo <= other.byPath.Keys
        invariant forall p :: Lookup(byPath, p) ==
                    if StartsWith(p, prefix) && Strip(p, prefix) in other.byPath.Keys - todo
                    then Lookup(other.byPath, Strip(p, prefix))
                    else Lookup(old(byPath), p)
      {
        var q :| q in todo;
        byPath := byPath[prefix + q := other.byPath[q]];
        StripAppend(prefix, q);
        todo := todo - {q};
        assert forall p | StartsWith(p, prefix) :: Strip(p, prefix) == q <==> p == prefix + q;
      }
    }

    /** `graft`: clear the prefix, synthesise the directories above it that are
        missing, then insert the other view re-keyed. */
    method Graft(other: TreeView, prefix: Path)
      requires other != this && prefix != []
      modifies this
      ensures forall p :: Lookup(byPath, p) == GraftedView(old(byPath), other.byPath, prefix, p)
    {
      byPath := map p | p in byPath && !StartsWith(p, prefix) :: byPath[p];
      SynthesizeAncestors(prefix);
      InsertUnder(other, prefix);
    }
  }

  // ---- the union -------------------------------------------------------------

  /** The registry cut to its first `n` shared chains. */
  function Upto(reg: Registry, n: nat): Registry
    requires n <= |reg.shared|
  {
    reg.(shared := reg.shared[..n])
  }

  lemma UptoWellFormed(reg: Registry, n: nat)
    requires n <= |reg.shared| && WellFormed(reg)
    ensures WellFormed(Upto(reg, n))
    ensures forall i :: ActiveAt(Upto(reg, n), i) <==> i < n && ActiveAt(reg, i)
    ensures forall i | 0 <= i < n :: Upto(reg, n).shared[i] == reg.shared[i]
  {
    assert forall i :: ActiveAt(Upto(reg, n), i) <==> i < n && ActiveAt(reg, i);
  }

  /** Composing one more chain is one graft. */
  lemma GraftExtendsUnion(before: View, sub: View, after: View, refs: Refs, reg: Registry, n: nat)
    requires n < |reg.shared| && WellFormed(reg) && TreesAreDirs(refs)
    requires Grafted(refs, reg, n)
    requires ShowsUnion(before, refs, Upto(reg, n))
    requires ShowsTree(sub, refs[reg.shared[n].refName])
    requires forall p :: Lookup(after, p) == GraftedView(before, sub, reg.shared[n].mount.value, p)
    ensures ShowsUnion(after, refs, Upto(reg, n + 1))
  {
    var mount := reg.shared[n].mount.value;
    var small, big := Upto(reg, n), Upto(reg, n + 1);
    UptoWellFormed(reg, n);
    UptoWellFormed(reg, n + 1);
    forall p
      ensures Lookup(after, p) == UnionEntry(refs, big, p)
    {
      assert Lookup(before, p) == UnionEntry(refs, small, p);
      if StartsWith(p, mount) {
        assert GraftedOver(refs, big, n, p);
        GraftedEntry(refs, big, n, p);
        assert Lookup(sub, Strip(p, mount)) == TreeEntry(refs[reg.shared[n].refName], Strip(p, mount));
      } else {
        GraftLeavesRest(refs, reg, n, p);
      }
    }
  }

  /** Away from the new mount only the directories leading to it can appear. */
  lemma GraftLeavesRest(refs: Refs, reg: Registry, n: nat, p: Path)
    requires n < |reg.shared| && WellFormed(reg) && TreesAreDirs(refs)
    requires Grafted(refs, reg, n) && !StartsWith(p, reg.shared[n].mount.value)
    ensures UnionEntry(refs, Upto(reg, n + 1), p) ==
            if UnionEntry(refs, Upto(reg, n), p).None? && StrictlyUnder(reg.shared[n].mount.value, p)
            then Some(DirEntry(DIR_MODE)) else UnionEntry(refs, Upto(reg, n), p)
    ensures p == [] ==> UnionEntry(refs, Upto(reg, n), p).Some?
  {
    var mount := reg.shared[n].mount.value;
    var small, big := Upto(reg, n), Upto(reg, n + 1);
    UptoWellFormed(reg, n);
    UptoWellFormed(reg, n + 1);
    if i :| GraftedOver(refs, small, i, p) {
      assert GraftedOver(refs, big, i, p);
      GraftedEntry(refs, small, i, p);
      GraftedEntry(refs, big, i, p);
      if StrictlyUnder(mount, p) {
        assert ActiveAt(reg, i) && ActiveAt(reg, n) && i != n;
        assert StartsWith(mount, reg.shared[i].mount.value);
      }
    } else {
      forall i
        ensures !GraftedOver(refs, big, i, p)
      {
        assert !GraftedOver(refs, small, i, p);
      }
      UngraftedEntry(refs, small, p);
      UngraftedEntry(refs, big, p);
      assert AboveGraft(refs, big, n, p) <==> StrictlyUnder(mount, p);
      forall i | 0 <= i < n
        ensures AboveGraft(refs, big, i, p) <==> AboveGraft(refs, small, i, p)
      {
      }
    }
  }

  lemma SkipKeepsUnion(v: View, refs: Refs, reg: Registry, n: nat)
    requires n < |reg.shared| && WellFormed(reg)
    requires !Grafted(refs, reg, n) && ShowsUnion(v, refs, Upto(reg, n))
    ensures ShowsUnion(v, refs, Upto(reg, n + 1))
  {
    var small, big := Upto(reg, n), Upto(reg, n + 1);
    UptoWellFormed(reg, n);
    UptoWellFormed(reg, n + 1);
    forall p
      ensures Lookup(v, p) == UnionEntry(refs, big, p)
    {
      assert Lookup(v, p) == UnionEntry(refs, small, p);
      forall i | 0 <= i <= n
        ensures AboveGraft(refs, big, i, p) <==> i < n && AboveGraft(refs, small, i, p)
        ensures GraftedOver(refs, big, i, p) <==> i < n && GraftedOver(refs, small, i, p)
      {
      }
      if i :| GraftedOver(refs, small, i, p) {
        assert GraftedOver(refs, big, i, p);
        GraftedEntry(refs, small, i, p);
        GraftedEntry(refs, big, i, p);
      } else {
        forall i
          ensures !GraftedOver(refs, big, i, p)
        {
          assert 0 <= i <= n ==> !GraftedOver(refs, big, i, p);
        }
        UngraftedEntry(refs, small, p);
        UngraftedEntry(refs, big, p);
      }
    }
  }

  /** `build_union`: the device tree with every enabled chain that has a commit
      grafted at its mount. */
  method BuildUnion(refs: Refs, reg: Registry) returns (view: TreeView)
    requires WellFormed(reg) && TreesAreDirs(refs)
    ensures fresh(view)
    ensures ShowsUnion(view.byPath, refs, reg)
  {
    if reg.device.refName in refs {
      view := new TreeView.Build(refs[reg.device.refName]);
    } else {
      view := new TreeView.Empty();
    }
    DeviceShowsUnion(view.byPath, refs, reg);
    for n := 0 to |reg.shared|
      invariant fresh(view)
      invariant ShowsUnion(view.byPath, refs, Upto(reg, n))
    {
      var chain := reg.shared[n];
      if chain.enabled && chain.mount.Some? && chain.refName in refs {
        var sub := new TreeView.Build(refs[chain.refName]);
        ghost var before := view.byPath;
        assert ActiveAt(reg, n);
        view.Graft(sub, chain.mount.value);
        GraftExtendsUnion(before, sub.byPath, view.byPath, refs, reg, n);
      } else {
        SkipKeepsUnion(view.byPath, refs, reg, n);
      }
    }
    assert Upto(reg, |reg.shared|) == reg;
  }

  lemma DeviceShowsUnion(v: View, refs: Refs, reg: Registry)
    requires WellFormed(reg)
    requires ShowsTree(v, DeviceTree(refs, reg)) || (v == map[[] := DirEntry(DIR_MODE)] && reg.device.refName !in refs)
    ensures ShowsUnion(v, refs, Upto(reg, 0))
  {
    UptoWellFormed(reg, 0);
    forall p
      ensures Lookup(v, p) == UnionEntry(refs, Upto(reg, 0), p)
    {
      if ShowsTree(v, DeviceTree(refs, reg)) {
        assert Lookup(v, p) == TreeEntry(DeviceTree(refs, reg), p);
      }
      UngraftedEntry(refs, Upto(reg, 0), p);
    }
  }

  // ---- what the union means --------------------------------------------------

  /** The committed file at a working-tree path: its owner's, under the stripped
      name. A chain with no commit yet leaves its subtree to the device tree. */
  function StoredFile(refs: Refs, reg: Registry, p: Path): Option<FileData> {
    match BestClaim(reg, p, |reg.shared|)
    case Some(i) =>
      if reg.shared[i].refName in refs
      then FileAt(refs[reg.shared[i].refName], Strip(p, reg.shared[i].mount.value))
      else FileAt(DeviceTree(refs, reg), p)
    case None => FileAt(DeviceTree(refs, reg), p)
  }

  lemma UnionShowsStoredFiles(v: View, refs: Refs, reg: Registry, p: Path)
    requires ShowsUnion(v, refs, reg)
    ensures BlobAt(v, p) == StoredFile(refs, reg, p)
  {
    assert Lookup(v, p) == UnionEntry(refs, reg, p);
  }

  /** No device file blocks the way to a graft point. */
  ghost predicate NoFileAboveMounts(refs: Refs, reg: Registry) {
    forall i, k | Grafted(refs, reg, i) && 0 <= k < |reg.shared[i].mount.value| ::
      FileAt(DeviceTree(refs, reg), reg.shared[i].mount.value[..k]).None?
  }

  /** The union is a proper directory tree exactly when no device file sits above a graft. */
  lemma UnionClosedIff(v: View, refs: Refs, reg: Registry)
    requires WellFormed(reg) && TreesAreDirs(refs) && ShowsUnion(v, refs, reg)
    ensures Closed(v) <==> NoFileAboveMounts(refs, reg)
  {
    if Closed(v) {
      forall i, k | Grafted(refs, reg, i) && 0 <= k < |reg.shared[i].mount.value|
        ensures FileAt(DeviceTree(refs, reg), reg.shared[i].mount.value[..k]).None?
      {
        var mount := reg.shared[i].mount.value;
        assert Lookup(v, mount) == UnionEntry(refs, reg, mount);
        assert GraftedOver(refs, reg, i, mount);
        GraftedEntry(refs, reg, i, mount);
        AboveMountIsUnderlay(refs, reg, i, mount[..k]);
        assert Lookup(v, mount[..k]) == UnionEntry(refs, reg, mount[..k]);
        assert DirIn(v, mount[..k]);
      }
    }
    if NoFileAboveMounts(refs, reg) {
      assert DirIn(v, []) by {
        assert Lookup(v, []) == UnionEntry(refs, reg, []);
        assert forall i :: !GraftedOver(refs, reg, i, []);
        UngraftedEntry(refs, reg, []);
      }
      forall p, k | p in v && 0 <= k < |p|
        ensures DirIn(v, p[..k])
      {
        UnionParentIsDir(v, refs, reg, p, k);
      }
    }
  }

  /** No mount covers a path strictly above another mount. */
  lemma AboveMountIsUnderlay(refs: Refs, reg: Registry, i: nat, a: Path)
    requires WellFormed(reg) && ActiveAt(reg, i) && StrictlyUnder(reg.shared[i].mount.value, a)
    ensures UnionEntry(refs, reg, a) == UnderlayEntry(refs, reg, a)
    ensures forall j :: !Claims(reg, j, a)
  {
    forall j
      ensures !Claims(reg, j, a)
    {
      if Claims(reg, j, a) {
        assert StartsWith(reg.shared[i].mount.value, reg.shared[j].mount.value);
      }
    }
    UngraftedEntry(refs, reg, a);
  }

  lemma UnionParentIsDir(v: View, refs: Refs, reg: Registry, p: Path, k: nat)
    requires WellFormed(reg) && TreesAreDirs(refs) && ShowsUnion(v, refs, reg)
    requires NoFileAboveMounts(refs, reg)
    requires p in v && k < |p|
    ensures DirIn(v, p[..k])
  {
    var a := p[..k];
    assert Lookup(v, p) == UnionEntry(refs, reg, p) && Lookup(v, a) == UnionEntry(refs, reg, a);
    if i :| GraftedOver(refs, reg, i, p) {
      var mount := reg.shared[i].mount.value;
      GraftedEntry(refs, reg, i, p);
      if |mount| <= k {
        assert StartsWith(a, mount) && GraftedOver(refs, reg, i, a);
        GraftedEntry(refs, reg, i, a);
        assert StrictlyUnder(Strip(p, mount), Strip(a, mount));
        AncestorsAreDirs(refs[reg.shared[i].refName], Strip(p, mount), Strip(a, mount));
      } else {
        assert a == mount[..k] && AboveGraft(refs, reg, i, a);
        AboveMountIsUnderlay(refs, reg, i, a);
      }
    } else {
      UngraftedEntry(refs, reg, p);
      assert forall i | GraftedOver(refs, reg, i, a) :: GraftedOver(refs, reg, i, p);
      UngraftedEntry(refs, reg, a);
      if NodeAt(DeviceTree(refs, reg), p).Some? {
        AncestorsAreDirs(DeviceTree(refs, reg), p, a);
      } else {
        var i :| 0 <= i < |reg.shared| && AboveGraft(refs, reg, i, p);
        assert AboveGraft(refs, reg, i, a) && a == reg.shared[i].mount.value[..k];
      }
    }
  }

  /** Every enabled chain has committed its part of the working tree `files`. */
  ghost predicate AllCommitted(refs: Refs, reg: Registry, files: map<Path, FileData>) {
    && reg.device.refName in refs && IsPart(reg, files, reg.device, refs[reg.device.refName])
    && forall i | ActiveAt(reg, i) ::
         reg.shared[i].refName in refs && IsPart(reg, files, reg.shared[i], refs[reg.shared[i].refName])
  }

  /** Splitting a working tree by owner, committing every part and composing the
      union gives back the same files, except those sitting exactly at a mount. */
  lemma SplitThenGraft(v: View, refs: Refs, reg: Registry, files: map<Path, FileData>, p: Path)
    requires WellFormed(reg) && PrefixFree(files.Keys)
    requires AllCommitted(refs, reg, files) && ShowsUnion(v, refs, reg)
    ensures BlobAt(v, p) ==
            if p in files && !IsEnabledMountRoot(reg, p) then Some(Masked(files[p])) else None
  {
    UnionShowsStoredFiles(v, refs, reg, p);
    var c := OwningChain(reg, p);
    OwnerPrefix(reg, p);
    var q := Strip(p, MountOf(c));
    assert IsPart(reg, files, c, refs[c.refName]);
    assert FileAt(refs[c.refName], q) == PartFileAt(reg, files, c, q);
    if p in files {
      EachFileInOnePart(reg, files, p, c, q);
    }
  }

  /** ... and the composed view is a proper tree when no file sits above a mount. */
  lemma SplitThenGraftClosed(v: View, refs: Refs, reg: Registry, files: map<Path, FileData>)
    requires WellFormed(reg) && PrefixFree(files.Keys) && TreesAreDirs(refs)
    requires AllCommitted(refs, reg, files) && ShowsUnion(v, refs, reg)
    ensures Closed(v) <==>
            forall i, k | ActiveAt(reg, i) && 0 <= k < |reg.shared[i].mount.value| ::
              reg.shared[i].mount.value[..k] !in files
  {
    UnionClosedIff(v, refs, reg);
    forall i, k | ActiveAt(reg, i) && 0 <= k < |reg.shared[i].mount.value|
      ensures Grafted(refs, reg, i)
      ensures FileAt(DeviceTree(refs, reg), reg.shared[i].mount.value[..k]).Some? <==>
              reg.shared[i].mount.value[..k] in files
    {
      var a := reg.shared[i].mount.value[..k];
      AboveMountIsUnderlay(refs, reg, i, a);
      OwnedByDevice(reg, a);
      assert FileAt(DeviceTree(refs, reg), a) == PartFileAt(reg, files, reg.device, a);
      assert OwningChain(reg, a) == reg.device;
      assert MountOf(reg.device) + a == a;
    }
  }
}
