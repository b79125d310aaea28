/** The live working tree: the committed view under the write overlay
    (the queries and collectors of crates/softfig-fuse/src/fs.rs). */
module Live {
  import opened Paths
  import opened Trees
  import opened Views
  import opened Overlays

  datatype Kind = Absent | IsFile(data: FileData) | IsDir(mode: nat)

  /** What a path resolves to, the overlay first: `entry_kind_of`, `current_mode`
      and `read_workfile` in one answer. */
  function Resolve(v: View, s: Slots, p: Path): Kind {
    if p in s then
      match s[p].entry
      case StagedFile(d) => IsFile(d)
      case StagedDir(m) => IsDir(m)
      case Removed => Absent
    else if p in v then
      match v[p]
      case Blob(d) => IsFile(d)
      case DirEntry(m) => IsDir(m)
    else Absent
  }

  /** `ignore.is_ignored`: by the first component alone. */
  predicate Ignored(ignored: set<Name>, p: Path) {
    p != [] && p[0] in ignored
  }

  /** Every path strictly between `from` and `p` is a directory: a descent from
      `from` through directories gets to `p`. */
  predicate Reach(v: View, s: Slots, from: Path, p: Path) {
    StartsWith(p, from) && forall k | |from| < k < |p| :: Resolve(v, s, p[..k]).IsDir?
  }

  lemma ReachThrough(v: View, s: Slots, from: Path, p: Path, q: Path)
    requires Reach(v, s, from, q) && StrictlyUnder(q, p) && StrictlyUnder(p, from)
    ensures Resolve(v, s, p).IsDir? && Reach(v, s, from, p)
  {
    assert q[..|p|] == p;
    forall k | |from| < k < |p|
      ensures Resolve(v, s, p[..k]).IsDir?
    {
      assert p[..k] == q[..k];
    }
  }

  /** A live entry strictly under `from`. */
  predicate LiveUnder(v: View, s: Slots, from: Path, p: Path) {
    StrictlyUnder(p, from) && Reach(v, s, from, p) && !Resolve(v, s, p).Absent?
  }

  predicate IsLiveFile(v: View, s: Slots, ignored: set<Name>, p: Path) {
    LiveUnder(v, s, [], p) && Resolve(v, s, p).IsFile? && !Ignored(ignored, p)
  }

  /** The working tree's file at `p`, its mode as a snapshot tracks it. */
  function LiveAt(v: View, s: Slots, ignored: set<Name>, p: Path): Option<FileData> {
    if IsLiveFile(v, s, ignored, p) then Some(Masked(Resolve(v, s, p).data)) else None
  }

  /** The working tree as a file map. */
  function LiveFiles(v: View, s: Slots, ignored: set<Name>): (files: map<Path, FileData>)
    ensures forall p :: LiveAt(v, s, ignored, p) == if p in files then Some(files[p]) else None
  {
    map p | p in v.Keys + s.Keys && IsLiveFile(v, s, ignored, p) :: LiveAt(v, s, ignored, p).value
  }

  /** No live file runs through another, so the file map is that of a tree. */
  lemma LiveFilesPrefixFree(v: View, s: Slots, ignored: set<Name>)
    ensures PrefixFree(LiveFiles(v, s, ignored).Keys)
  {
    assert LiveAt(v, s, ignored, []).None?;
    forall p, q | p in LiveFiles(v, s, ignored) && q in LiveFiles(v, s, ignored)
      ensures !StrictlyUnder(q, p)
    {
      assert LiveAt(v, s, ignored, p).Some? && LiveAt(v, s, ignored, q).Some?;
      if StrictlyUnder(q, p) {
        ReachThrough(v, s, [], p, q);
      }
    }
  }

  /** A file staged exactly at a live graft point counts as absent when the
      snapshot is collected. */
  function Effective(s: Slots, roots: set<Path>): (e: Slots)
    ensures forall p :: p in e <==> p in s && !(s[p].entry.StagedFile? && p in roots)
    ensures forall p | p in e :: e[p] == s[p]
  {
    map p | p in s && !(s[p].entry.StagedFile? && p in roots) :: s[p]
  }

  // ---- enumerations ----------------------------------------------------------

  ghost predicate NoRepeats<T>(list: seq<T>) {
    forall i, j | 0 <= i < j < |list| :: list[i] != list[j]
  }

  lemma AppendNoRepeats<T>(a: seq<T>, b: seq<T>)
    requires NoRepeats(a) && NoRepeats(b)
    requires forall x | x in a :: x !in b
    ensures NoRepeats(a + b)
  {
    forall i, j | 0 <= i < j < |a + b|
      ensures (a + b)[i] != (a + b)[j]
    {
      assert i < |a| ==> (a + b)[i] in a;
      assert j >= |a| ==> (a + b)[j] in b;
    }
  }

  function PathsOf(list: seq<(Path, FileData)>): (paths: seq<Path>)
    ensures |paths| == |list|
    ensures forall i | 0 <= i < |list| :: paths[i] == list[i].0
  {
    seq(|list|, i requires 0 <= i < |list| => list[i].0)
  }

  lemma PathsOfAppend(a: seq<(Path, FileData)>, b: seq<(Path, FileData)>)
    ensures PathsOf(a + b) == PathsOf(a) + PathsOf(b)
  {
  }

  /** A length no path of the working tree exceeds. */
  ghost predicate Bounded(v: View, s: Slots, depth: nat) {
    forall p | p in v.Keys + s.Keys :: |p| <= depth
  }

  ghost function LongestPath(paths: set<Path>): (n: nat)
    ensures forall p | p in paths :: |p| <= n
  {
    if paths == {} then 0
    else
      var p :| p in paths;
      var rest := LongestPath(paths - {p});
      if |p| > rest then |p| else rest
  }

  // ---- collect_files ---------------------------------------------------------

  /** `p` is to be emitted by the descent from `dir`. */
  ghost predicate Emits(v: View, e: Slots, ignored: set<Name>, dir: Path, p: Path) {
    LiveUnder(v, e, dir, p) && Resolve(v, e, p).IsFile? && !Ignored(ignored, p)
  }

  /** The child of `dir` on the way to `p`. */
  function Branch(dir: Path, p: Path): Path
    requires StrictlyUnder(p, dir)
  {
    p[..|dir| + 1]
  }

  /** `out` holds what the descent emits through the children in `done`. */
  ghost predicate Collected(v: View, e: Slots, ignored: set<Name>, dir: Path, done: set<Path>, out: seq<(Path, FileData)>) {
    && NoRepeats(PathsOf(out))
    && (forall p :: p in PathsOf(out) <==> Emits(v, e, ignored, dir, p) && Branch(dir, p) in done)
    && (forall i | 0 <= i < |out| :: Resolve(v, e, out[i].0) == IsFile(out[i].1))
  }

  /** `out` lists the files the descent from `dir` must emit, each once. */
  ghost predicate ListsFiles(v: View, e: Slots, ignored: set<Name>, dir: Path, out: seq<(Path, FileData)>) {
    && NoRepeats(PathsOf(out))
    && (forall p :: p in PathsOf(out) <==> Emits(v, e, ignored, dir, p))
    && (forall i | 0 <= i < |out| :: Resolve(v, e, out[i].0) == IsFile(out[i].1))
  }

  /** Descending through a child: what it contributes is what is emitted under it, or itself. */
  lemma EmitsThrough(v: View, e: Slots, ignored: set<Name>, dir: Path, c: Path, p: Path)
    requires IsParentOf(dir, c) && StartsWith(p, c)
    ensures StrictlyUnder(p, dir) && Branch(dir, p) == c
    ensures p == c ==> (Emits(v, e, ignored, dir, p) <==> Resolve(v, e, c).IsFile? && !Ignored(ignored, c))
    ensures p != c ==> (Emits(v, e, ignored, dir, p) <==> Resolve(v, e, c).IsDir? && Emits(v, e, ignored, c, p))
    ensures Ignored(ignored, p) <==> Ignored(ignored, c)
  {
    assert p[..|c|] == c && c[..|dir|] == dir;
    if p != c {
      assert Reach(v, e, dir, p) <==> Resolve(v, e, c).IsDir? && Reach(v, e, c, p) by {
        if Reach(v, e, dir, p) {
          assert Resolve(v, e, p[..|c|]).IsDir?;
        }
      }
    }
  }

  /** One handled child extends what is collected. */
  lemma CollectedStep(v: View, e: Slots, ignored: set<Name>, dir: Path, done: set<Path>, out: seq<(Path, FileData)>,
                      c: Path, sub: seq<(Path, FileData)>)
    requires Collected(v, e, ignored, dir, done, out) && IsParentOf(dir, c) && c !in done
    requires
      if Ignored(ignored, c) || Resolve(v, e, c).Absent? then sub == []
      else if Resolve(v, e, c).IsFile? then sub == [(c, Resolve(v, e, c).data)]
      else ListsFiles(v, e, ignored, c, sub)
    ensures Collected(v, e, ignored, dir, done + {c}, out + sub)
  {
    PathsOfAppend(out, sub);
    assert PathsOf([(c, FileData([], 0))]) == [c];
    forall p
      ensures p in PathsOf(sub) <==> StartsWith(p, c) && Emits(v, e, ignored, dir, p)
    {
      if StartsWith(p, c) {
        EmitsThrough(v, e, ignored, dir, c, p);
      }
      if Resolve(v, e, c).IsFile? && !Ignored(ignored, c) {
        assert PathsOf(sub) == [c];
      }
    }
    forall p | StrictlyUnder(p, dir)
      ensures Branch(dir, p) == c <==> StartsWith(p, c)
    {
      if StartsWith(p, c) {
        EmitsThrough(v, e, ignored, dir, c, p);
      }
    }
    assert NoRepeats(PathsOf(sub));
    AppendNoRepeats(PathsOf(out), PathsOf(sub));
  }

  lemma CollectedAll(v: View, e: Slots, ignored: set<Name>, dir: Path, done: set<Path>, out: seq<(Path, FileData)>)
    requires Collected(v, e, ignored, dir, done, out)
    requires forall c | IsParentOf(dir, c) && !Resolve(v, e, c).Absent? :: c in done
    ensures ListsFiles(v, e, ignored, dir, out)
  {
    forall p | Emits(v, e, ignored, dir, p)
      ensures Branch(dir, p) in done
    {
      var c := Branch(dir, p);
      assert |c| < |p| ==> Resolve(v, e, p[..|dir| + 1]).IsDir?;
      assert |c| == |p| ==> c == p;
    }
  }

  /** `collect_files`: the overlay's children of `dir` first, then the view's
      children no overlay entry shadows. A stray file staged at a live graft
      point neither is emitted nor shadows the graft. */
  method CollectFiles(v: View, s: Slots, ignored: set<Name>, roots: set<Path>, dir: Path, ghost depth: nat)
    returns (out: seq<(Path, FileData)>)
    requires Bounded(v, s, depth) && |dir| <= depth
    ensures ListsFiles(v, Effective(s, roots), ignored, dir, out)
    decreases depth - |dir|
  {
    ghost var e := Effective(s, roots);
    out := [];
    ghost var done: set<Path> := {};
    var todo := set p | p in s && IsParentOf(dir, p);
    while todo != {}
      invariant todo <= s.Keys && forall p | p in todo :: IsParentOf(dir, p)
      invariant forall p :: p in done <==> p in e && IsParentOf(dir, p) && p !in todo
      invariant Collected(v, e, ignored, dir, done, out)
    {
      var path :| path in todo;
      todo := todo - {path};
      var sub := [];
      if !Ignored(ignored, path) {
        match s[path].entry {
          case Removed =>
          case StagedFile(data) =>
            if path !in roots {
              sub := [(path, data)];
            }
          case StagedDir(_) =>
            sub := CollectFiles(v, s, ignored, roots, path, depth);
        }
      }
      if path in e {
        CollectedStep(v, e, ignored, dir, done, out, path, sub);
        done := done + {path};
      }
      assert path !in e ==> sub == [];
      assert out + [] == out;
      out := out + sub;
    }
    todo := set p | p in v && IsParentOf(dir, p);
    ghost var staged := done;
    while todo != {}
      invariant todo <= v.Keys && forall p | p in todo :: IsParentOf(dir, p)
      invariant forall p :: p in done <==> p in staged || (p in v && IsParentOf(dir, p) && p !in todo)
      invariant Collected(v, e, ignored, dir, done, out)
    {
      var path :| path in todo;
      todo := todo - {path};
      var shadowed := path in s && !(s[path].entry.StagedFile? && path in roots);
      if !shadowed {
        var sub := [];
        if !Ignored(ignored, path) {
          match v[path] {
            case Blob(data) => sub := [(path, data)];
            case DirEntry(_) => sub := CollectFiles(v, s, ignored, roots, path, depth);
          }
        }
        CollectedStep(v, e, ignored, dir, done, out, path, sub);
        out := out + sub;
      }
      done := done + {path};
    }
    CollectedAll(v, e, ignored, dir, done, out);
  }

  /** The first `n` collected files, as a snapshot stores them. */
  function Stored(list: seq<(Path, FileData)>, n: nat): map<Path, FileData>
    requires n <= |list|
  {
    if n == 0 then map[] else Stored(list, n - 1)[list[n - 1].0 := Masked(list[n - 1].1)]
  }

  lemma {:induction false} StoredWithin(v: View, e: Slots, ignored: set<Name>, list: seq<(Path, FileData)>, n: nat)
    requires ListsFiles(v, e, ignored, [], list) && n <= |list|
    ensures Stored(list, n).Keys <= LiveFiles(v, e, ignored).Keys
    ensures forall p | p in Stored(list, n) :: Stored(list, n)[p] == LiveFiles(v, e, ignored)[p]
    ensures forall i | 0 <= i < n :: list[i].0 in Stored(list, n)
  {
    if n > 0 {
      StoredWithin(v, e, ignored, list, n - 1);
      var p := list[n - 1].0;
      assert p == PathsOf(list)[n - 1];
      assert Emits(v, e, ignored, [], p);
      assert LiveAt(v, e, ignored, p) == Some(Masked(list[n - 1].1));
    }
  }

  /** Storing everything collected stores the live files. */
  lemma StoredAll(v: View, e: Slots, ignored: set<Name>, list: seq<(Path, FileData)>)
    requires ListsFiles(v, e, ignored, [], list)
    ensures Stored(list, |list|) == LiveFiles(v, e, ignored)
  {
    StoredWithin(v, e, ignored, list, |list|);
    forall p | p in LiveFiles(v, e, ignored)
      ensures p in Stored(list, |list|)
    {
      assert LiveAt(v, e, ignored, p).Some?;
      assert p in PathsOf(list);
      var i :| 0 <= i < |list| && PathsOf(list)[i] == p;
      assert list[i].0 == p;
    }
  }

  /** One more collected file goes into the tree where nothing is in its way. */
  lemma StoreOne(v: View, e: Slots, ignored: set<Name>, list: seq<(Path, FileData)>, i: nat, tree: Node)
    requires ListsFiles(v, e, ignored, [], list) && i < |list|
    requires tree.Dir? && Holds(tree, Stored(list, i))
    ensures Holds(InsertFile(tree, list[i].0, list[i].1), Stored(list, i + 1))
  {
    StoredWithin(v, e, ignored, list, i);
    StoredWithin(v, e, ignored, list, i + 1);
    LiveFilesPrefixFree(v, e, ignored);
    assert Stored(list, i).Keys + {list[i].0} <= LiveFiles(v, e, ignored).Keys;
    InsertHolds(tree, Stored(list, i), list[i].0, list[i].1);
  }

  // ---- collect_live_entries --------------------------------------------------

  /** `files` and `dirs` partition the live entries under `dir` that lie through
      the children in `done`. */
  ghost predicate Partitioned(v: View, s: Slots, dir: Path, done: set<Path>, files: seq<Path>, dirs: seq<Path>) {
    && (forall p :: p in files <==>
          LiveUnder(v, s, dir, p) && Branch(dir, p) in done && Resolve(v, s, p).IsFile?)
    && (forall p :: p in dirs <==>
          LiveUnder(v, s, dir, p) && Branch(dir, p) in done && Resolve(v, s, p).IsDir?)
  }

  ghost predicate PartitionsAll(v: View, s: Slots, dir: Path, files: seq<Path>, dirs: seq<Path>) {
    && NoRepeats(files) && NoRepeats(dirs)
    && (forall p :: p in files <==> LiveUnder(v, s, dir, p) && Resolve(v, s, p).IsFile?)
    && (forall p :: p in dirs <==> LiveUnder(v, s, dir, p) && Resolve(v, s, p).IsDir?)
  }

  lemma LiveThrough(v: View, s: Slots, dir: Path, c: Path, p: Path)
    requires IsParentOf(dir, c) && StartsWith(p, c)
    ensures StrictlyUnder(p, dir) && Branch(dir, p) == c
    ensures p == c ==> (LiveUnder(v, s, dir, p) <==> !Resolve(v, s, c).Absent?)
    ensures p != c ==> (LiveUnder(v, s, dir, p) <==> Resolve(v, s, c).IsDir? && LiveUnder(v, s, c, p))
  {
    assert p[..|c|] == c && c[..|dir|] == dir;
    if p != c {
      assert Reach(v, s, dir, p) <==> Resolve(v, s, c).IsDir? && Reach(v, s, c, p) by {
        if Reach(v, s, dir, p) {
          assert Resolve(v, s, p[..|c|]).IsDir?;
        }
      }
    }
  }

  lemma PartitionedStep(v: View, s: Slots, dir: Path, done: set<Path>, files: seq<Path>, dirs: seq<Path>,
                        c: Path, subFiles: seq<Path>, subDirs: seq<Path>)
    requires Partitioned(v, s, dir, done, files, dirs) && NoRepeats(files) && NoRepeats(dirs)
    requires IsParentOf(dir, c) && c !in done
    requires
      match Resolve(v, s, c)
      case Absent => subFiles == [] && subDirs == []
      case IsFile(_) => subFiles == [c] && subDirs == []
      case IsDir(_) => exists below :: subDirs == [c] + below && PartitionsAll(v, s, c, subFiles, below)
    ensures Partitioned(v, s, dir, done + {c}, files + subFiles, dirs + subDirs)
    ensures NoRepeats(files + subFiles) && NoRepeats(dirs + subDirs)
  {
    forall p
      ensures p in subFiles <==> StartsWith(p, c) && LiveUnder(v, s, dir, p) && Resolve(v, s, p).IsFile?
      ensures p in subDirs <==> StartsWith(p, c) && LiveUnder(v, s, dir, p) && Resolve(v, s, p).IsDir?
    {
      if StartsWith(p, c) {
        LiveThrough(v, s, dir, c, p);
      }
    }
    forall p | StrictlyUnder(p, dir)
      ensures Branch(dir, p) == c <==> StartsWith(p, c)
    {
      if StartsWith(p, c) {
        LiveThrough(v, s, dir, c, p);
      }
    }
    if Resolve(v, s, c).IsDir? {
      var below :| subDirs == [c] + below && PartitionsAll(v, s, c, subFiles, below);
      AppendNoRepeats([c], below);
    }
    AppendNoRepeats(files, subFiles);
    AppendNoRepeats(dirs, subDirs);
  }

  /** `collect_live_entries`: every live entry strictly under `dir`, files and
      directories apart, each once. */
  method CollectLiveEntries(v: View, s: Slots, dir: Path, ghost depth: nat) returns (files: seq<Path>, dirs: seq<Path>)
    requires Bounded(v, s, depth) && |dir| <= depth
    ensures PartitionsAll(v, s, dir, files, dirs)
    decreases depth - |dir|
  {
    files, dirs := [], [];
    ghost var done: set<Path> := {};
    var todo := set p | p in s && IsParentOf(dir, p);
    while todo != {}
      invariant todo <= s.Keys && forall p | p in todo :: IsParentOf(dir, p)
      invariant forall p :: p in done <==> p in s && IsParentOf(dir, p) && p !in todo
      invariant Partitioned(v, s, dir, done, files, dirs) && NoRepeats(files) && NoRepeats(dirs)
    {
      var path :| path in todo;
      todo := todo - {path};
      var subFiles, subDirs := [], [];
      match s[path].entry {
        case Removed =>
        case StagedFile(_) => subFiles := [path];
        case StagedDir(_) =>
          var below;
          subFiles, below := CollectLiveEntries(v, s, path, depth);
          subDirs := [path] + below;
      }
      PartitionedStep(v, s, dir, done, files, dirs, path, subFiles, subDirs);
      files, dirs := files + subFiles, dirs + subDirs;
      done := done + {path};
    }
    todo := set p | p in v && IsParentOf(dir, p);
    ghost var staged := done;
    while todo != {}
      invariant todo <= v.Keys && forall p | p in todo :: IsParentOf(dir, p)
      invariant forall p :: p in done <==> p in staged || (p in v && IsParentOf(dir, p) && p !in todo)
      invariant Partitioned(v, s, dir, done, files, dirs) && NoRepeats(files) && NoRepeats(dirs)
    {
      var path :| path in todo;
      todo := todo - {path};
      if path !in s {
        var subFiles, subDirs := [], [];
        match v[path] {
          case Blob(_) => subFiles := [path];
          case DirEntry(_) =>
            var below;
            subFiles, below := CollectLiveEntries(v, s, path, depth);
            subDirs := [path] + below;
        }
        PartitionedStep(v, s, dir, done, files, dirs, path, subFiles, subDirs);
        files, dirs := files + subFiles, dirs + subDirs;
      }
      done := done + {path};
    }
    forall p | LiveUnder(v, s, dir, p)
      ensures Branch(dir, p) in done
    {
      var c := Branch(dir, p);
      assert |c| < |p| ==> Resolve(v, s, p[..|dir| + 1]).IsDir?;
      assert |c| == |p| ==> c == p;
    }
  }

  /** `read_dir_entries`: the live children of a directory, whatever `dir` itself is. */
  function LiveChildren(v: View, s: Slots, dir: Path): (children: set<Path>)
    ensures forall c :: c in children <==> IsParentOf(dir, c) && !Resolve(v, s, c).Absent?
  {
    set c | c in v.Keys + s.Keys && IsParentOf(dir, c) && !Resolve(v, s, c).Absent?
  }

  /** The source's two passes over the view's children and the overlay. */
  method ReadDirEntries(v: View, s: Slots, dir: Path) returns (out: set<(Name, bool)>)
    ensures forall name, isDir :: (name, isDir) in out <==>
              dir + [name] in LiveChildren(v, s, dir) && isDir == Resolve(v, s, dir + [name]).IsDir?
  {
    var fromView := set c | c in v && IsParentOf(dir, c) && c !in s :: (c[|c| - 1], v[c].DirEntry?);
    var fromOverlay := set c | c in s && IsParentOf(dir, c) && !s[c].entry.Removed? :: (c[|c| - 1], s[c].entry.StagedDir?);
    out := fromView + fromOverlay;
    forall name, isDir
      ensures (name, isDir) in out <==>
              dir + [name] in LiveChildren(v, s, dir) && isDir == Resolve(v, s, dir + [name]).IsDir?
    {
      var c := dir + [name];
      assert IsParentOf(dir, c) && c[|c| - 1] == name;
      forall d | IsParentOf(dir, d)
        ensures d == dir + [d[|d| - 1]]
      {
      }
    }
  }
}
