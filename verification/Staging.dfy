/** What the staging operations do to the live working tree, on values
    (crates/softfig-fuse/src/fs.rs). */
module Staging {
  import opened Paths
  import opened Trees
  import opened Views
  import opened Overlays
  import opened Live

  /** 0o100644, the mode of a file written where none was. */
  const FILE_MODE := 0x81A4

  // ---- connectedness ---------------------------------------------------------

  /** Which entries a connectedness claim is about: all, or the non-ignored files
      a snapshot can hold. */
  datatype Scope = Everything | Files(ignored: set<Name>)

  predicate InScope(scope: Scope, k: Kind, p: Path) {
    && p != [] && !k.Absent?
    && (scope.Files? ==> k.IsFile? && !Ignored(scope.ignored, p))
  }

  /** Nothing in scope is orphaned: whatever resolves can be descended to. */
  ghost predicate Connected(v: View, s: Slots, scope: Scope) {
    forall p :: InScope(scope, Resolve(v, s, p), p) ==> Reach(v, s, [], p)
  }

  lemma EverythingCoversFiles(v: View, s: Slots, ignored: set<Name>)
    requires Connected(v, s, Everything)
    ensures Connected(v, s, Files(ignored))
  {
    forall p | InScope(Files(ignored), Resolve(v, s, p), p)
      ensures Reach(v, s, [], p)
    {
      assert InScope(Everything, Resolve(v, s, p), p);
    }
  }

  /** With no orphans the live file at a path is just what the path resolves to.
      This is exactly what connectedness of files means. */
  lemma ConnectedIffLiveIsResolved(v: View, s: Slots, ignored: set<Name>)
    ensures Connected(v, s, Files(ignored)) <==>
            forall p :: LiveAt(v, s, ignored, p) == ResolvedFile(v, s, ignored, p)
  {
    forall p
      ensures LiveAt(v, s, ignored, p).Some? <==>
              InScope(Files(ignored), Resolve(v, s, p), p) && Reach(v, s, [], p)
    {
    }
  }

  function ResolvedFile(v: View, s: Slots, ignored: set<Name>, p: Path): Option<FileData> {
    if InScope(Files(ignored), Resolve(v, s, p), p) then Some(Masked(Resolve(v, s, p).data)) else None
  }

  /** A composed view is connected under an empty overlay. */
  lemma ClosedViewConnected(v: View)
    requires Closed(v)
    ensures Connected(v, map[], Everything)
  {
    forall p, k | InScope(Everything, Resolve(v, map[], p), p) && 0 < k < |p|
      ensures Resolve(v, map[], p[..k]).IsDir?
    {
      assert DirIn(v, p[..k]);
    }
  }

  // ---- the slots after a batch -----------------------------------------------

  /** The overlay answer at `p` once `batch` is staged over `s`. */
  function After(v: View, s: Slots, batch: map<Path, OverlayEntry>, p: Path): Kind {
    if p in batch then
      match batch[p]
      case StagedFile(d) => IsFile(d)
      case StagedDir(m) => IsDir(m)
      case Removed => Absent
    else Resolve(v, s, p)
  }

  lemma RestagedResolve(v: View, a: Log, b: Log, batch: map<Path, OverlayEntry>, p: Path)
    requires Restaged(a, b, batch)
    ensures Resolve(v, b.slots, p) == After(v, a.slots, batch, p)
  {
  }

  /** A batch keeps everything connected when what it adds hangs from directories
      and what it takes away had nothing in scope left under it. */
  lemma BatchKeepsConnected(v: View, a: Log, b: Log, batch: map<Path, OverlayEntry>, scope: Scope)
    requires Restaged(a, b, batch) && Connected(v, a.slots, scope)
    requires forall p, k | p in batch && InScope(scope, After(v, a.slots, batch, p), p) && 0 < k < |p| ::
               After(v, a.slots, batch, p[..k]).IsDir?
    requires forall p, q | p in batch && !batch[p].StagedDir? && StrictlyUnder(q, p) && q !in batch ::
               !InScope(scope, Resolve(v, a.slots, q), q)
    ensures Connected(v, b.slots, scope)
  {
    forall p, k | InScope(scope, Resolve(v, b.slots, p), p) && 0 < k < |p|
      ensures Resolve(v, b.slots, p[..k]).IsDir?
    {
      RestagedResolve(v, a, b, batch, p);
      RestagedResolve(v, a, b, batch, p[..k]);
      if p !in batch {
        assert Reach(v, a.slots, [], p);
        assert Resolve(v, a.slots, p[..k]).IsDir?;
        assert StrictlyUnder(p, p[..k]);
      }
    }
  }

  lemma NothingUnderNonDir(v: View, s: Slots, scope: Scope, p: Path)
    requires Connected(v, s, scope) && p != [] && !Resolve(v, s, p).IsDir?
    ensures forall q | StrictlyUnder(q, p) :: !InScope(scope, Resolve(v, s, q), q)
  {
    forall q | StrictlyUnder(q, p)
      ensures !InScope(scope, Resolve(v, s, q), q)
    {
      if InScope(scope, Resolve(v, s, q), q) {
        ReachThrough(v, s, [], p, q);
      }
    }
  }

  // ---- stage_write, create, mkdir, stage_mode --------------------------------

  /** The ancestors `ensure_overlay_dirs` stages a marker for: those with no
      overlay entry at all and no committed directory. */
  function MissingDirs(v: View, s: Slots, p: Path): (dirs: set<Path>)
    ensures forall a :: a in dirs <==> a != [] && StrictlyUnder(p, a) && a !in s && !DirIn(v, a)
  {
    var dirs := set k | 0 < k < |p| && p[..k] !in s && !DirIn(v, p[..k]) :: p[..k];
    assert forall a | a != [] && StrictlyUnder(p, a) :: a == p[..|a|];
    dirs
  }

  function DirMarkers(dirs: set<Path>): map<Path, OverlayEntry> {
    map a | a in dirs :: StagedDir(DIR_MODE)
  }

  function CurrentMode(v: View, s: Slots, p: Path, default: nat): nat {
    match Resolve(v, s, p)
    case Absent => default
    case IsFile(d) => d.mode
    case IsDir(m) => m
  }

  function WriteBatch(v: View, s: Slots, p: Path, content: Bytes): map<Path, OverlayEntry> {
    DirMarkers(MissingDirs(v, s, p))[p := StagedFile(FileData(content, CurrentMode(v, s, p, FILE_MODE)))]
  }

  /** Nothing in the way above `p`: no ancestor is staged as a file or removed,
      and none is a committed file without an overlay entry. */
  ghost predicate ClearAbove(v: View, s: Slots, p: Path) {
    forall k | 0 < k < |p| :: Resolve(v, s, p[..k]).IsDir? || (p[..k] !in s && p[..k] !in v)
  }

  /** A file can be staged at `p`. */
  ghost predicate CanHoldFile(v: View, s: Slots, p: Path) {
    p != [] && !Resolve(v, s, p).IsDir? && ClearAbove(v, s, p)
  }

  lemma WriteKeepsConnected(v: View, a: Log, b: Log, p: Path, content: Bytes, scope: Scope)
    requires Connected(v, a.slots, scope) && CanHoldFile(v, a.slots, p)
    requires Restaged(a, b, WriteBatch(v, a.slots, p, content))
    ensures Connected(v, b.slots, scope)
    ensures Reach(v, b.slots, [], p)
  {
    var batch := WriteBatch(v, a.slots, p, content);
    forall q, k | q in batch && 0 < k < |q|
      ensures After(v, a.slots, batch, q[..k]).IsDir?
    {
      assert q[..k] == p[..k];
    }
    NothingUnderNonDir(v, a.slots, scope, p);
    BatchKeepsConnected(v, a, b, batch, scope);
    forall k | 0 < k < |p|
      ensures Resolve(v, b.slots, p[..k]).IsDir?
    {
      RestagedResolve(v, a, b, batch, p[..k]);
    }
  }

  /** `stage_write` on the live files: `p` holds the content, nothing else moved. */
  lemma WriteIsExact(v: View, a: Log, b: Log, p: Path, content: Bytes, ignored: set<Name>, q: Path)
    requires Connected(v, a.slots, Files(ignored)) && CanHoldFile(v, a.slots, p) && !Ignored(ignored, p)
    requires Restaged(a, b, WriteBatch(v, a.slots, p, content))
    ensures LiveAt(v, b.slots, ignored, q) ==
            if q != p then LiveAt(v, a.slots, ignored, q)
            else if LiveAt(v, a.slots, ignored, p).Some? then Some(LiveAt(v, a.slots, ignored, p).value.(content := content))
            else Some(FileData(content, MaskMode(FILE_MODE)))
  {
    WriteKeepsConnected(v, a, b, p, content, Files(ignored));
    ConnectedIffLiveIsResolved(v, a.slots, ignored);
    ConnectedIffLiveIsResolved(v, b.slots, ignored);
    RestagedResolve(v, a, b, WriteBatch(v, a.slots, p, content), q);
    MissingDirHoldsNoFile(v, a.slots, p, q);
  }

  /** In every state, orphans or not: a written file is live exactly when no ancestor
      is staged as a file or as removed. The marker pass leaves both in place. */
  lemma WriteIsLiveIff(v: View, a: Log, b: Log, p: Path, content: Bytes, ignored: set<Name>)
    requires p != [] && !Ignored(ignored, p)
    requires Restaged(a, b, WriteBatch(v, a.slots, p, content))
    ensures LiveAt(v, b.slots, ignored, p).Some? <==>
            forall k | 0 < k < |p| && p[..k] in a.slots :: a.slots[p[..k]].entry.StagedDir?
  {
    forall k | 0 < k < |p|
      ensures Resolve(v, b.slots, p[..k]).IsDir? <==>
              (p[..k] in a.slots ==> a.slots[p[..k]].entry.StagedDir?)
    {
      RestagedResolve(v, a, b, WriteBatch(v, a.slots, p, content), p[..k]);
    }
  }

  lemma MissingDirHoldsNoFile(v: View, s: Slots, p: Path, q: Path)
    requires ClearAbove(v, s, p)
    ensures q in MissingDirs(v, s, p) ==> Resolve(v, s, q).Absent?
  {
    if q in MissingDirs(v, s, p) {
      assert q == p[..|q|];
    }
  }

  /** One entry staged where its parent is a directory: `create`, `write`,
      `mkdir` and `stage_mode` are all of this shape. */
  ghost predicate ParentsAreDirs(v: View, s: Slots, p: Path) {
    p != [] && forall k | 0 < k < |p| :: Resolve(v, s, p[..k]).IsDir?
  }

  lemma CreateKeepsConnected(v: View, a: Log, b: Log, p: Path, data: FileData, scope: Scope)
    requires Connected(v, a.slots, scope) && ParentsAreDirs(v, a.slots, p)
    requires !Resolve(v, a.slots, p).IsDir?
    requires Restaged(a, b, map[p := StagedFile(data)])
    ensures Connected(v, b.slots, scope)
  {
    NothingUnderNonDir(v, a.slots, scope, p);
    BatchKeepsConnected(v, a, b, map[p := StagedFile(data)], scope);
  }

  lemma CreateIsExact(v: View, a: Log, b: Log, p: Path, data: FileData, ignored: set<Name>, q: Path)
    requires Connected(v, a.slots, Files(ignored)) && ParentsAreDirs(v, a.slots, p)
    requires !Resolve(v, a.slots, p).IsDir? && !Ignored(ignored, p)
    requires Restaged(a, b, map[p := StagedFile(data)])
    ensures LiveAt(v, b.slots, ignored, q) ==
            if q == p then Some(Masked(data)) else LiveAt(v, a.slots, ignored, q)
  {
    CreateKeepsConnected(v, a, b, p, data, Files(ignored));
    ConnectedIffLiveIsResolved(v, a.slots, ignored);
    ConnectedIffLiveIsResolved(v, b.slots, ignored);
  }

  /** A file entry staged where no directory is, in every state and with any bytes:
      the path shows it exactly when everything above is a directory, every other path
      keeps its answer. This is all `stage_mode` does. */
  lemma FileEntryIsExact(v: View, a: Log, b: Log, p: Path, data: FileData, ignored: set<Name>, q: Path)
    requires !Resolve(v, a.slots, p).IsDir?
    requires Restaged(a, b, map[p := StagedFile(data)])
    ensures LiveAt(v, b.slots, ignored, q) ==
            if q == p && !Ignored(ignored, p) && ParentsAreDirs(v, a.slots, p) then Some(Masked(data))
            else LiveAt(v, a.slots, ignored, q)
  {
    forall k | 0 < k < |q|
      ensures Resolve(v, b.slots, q[..k]).IsDir? <==> Resolve(v, a.slots, q[..k]).IsDir?
    {
      RestagedResolve(v, a, b, map[p := StagedFile(data)], q[..k]);
    }
    RestagedResolve(v, a, b, map[p := StagedFile(data)], q);
  }

  /** `stage_mode` keeps the set of live paths exactly when it is called on a file, or
      where it cannot show: on an absent path in a live directory it makes a file. */
  lemma ChmodKeepsPathsIff(v: View, a: Log, b: Log, p: Path, data: FileData, ignored: set<Name>)
    requires !Resolve(v, a.slots, p).IsDir?
    requires Restaged(a, b, map[p := StagedFile(data)])
    ensures (forall q :: LiveAt(v, b.slots, ignored, q).Some? <==> LiveAt(v, a.slots, ignored, q).Some?)
            <==> Resolve(v, a.slots, p).IsFile? || Ignored(ignored, p) || !ParentsAreDirs(v, a.slots, p)
  {
    forall q
      ensures LiveAt(v, b.slots, ignored, q) ==
              if q == p && !Ignored(ignored, p) && ParentsAreDirs(v, a.slots, p) then Some(Masked(data))
              else LiveAt(v, a.slots, ignored, q)
    {
      FileEntryIsExact(v, a, b, p, data, ignored, q);
    }
    assert LiveAt(v, a.slots, ignored, p).Some? ==> ParentsAreDirs(v, a.slots, p);
  }

  /** On a live file `stage_mode` changes the mode and nothing else exactly when the
      bytes it was given are the ones the file has. */
  lemma ChmodKeepsContentIff(v: View, a: Log, b: Log, p: Path, bytes: Bytes, mode: nat, ignored: set<Name>)
    requires LiveAt(v, a.slots, ignored, p).Some?
    requires Restaged(a, b, map[p := StagedFile(FileData(bytes, mode))])
    ensures LiveAt(v, b.slots, ignored, p) == Some(LiveAt(v, a.slots, ignored, p).value.(mode := MaskMode(mode)))
            <==> bytes == Resolve(v, a.slots, p).data.content
  {
    FileEntryIsExact(v, a, b, p, FileData(bytes, mode), ignored, p);
  }

  lemma MkdirKeepsConnected(v: View, a: Log, b: Log, p: Path, mode: nat, scope: Scope)
    requires Connected(v, a.slots, scope) && ParentsAreDirs(v, a.slots, p)
    requires Restaged(a, b, map[p := StagedDir(mode)])
    ensures Connected(v, b.slots, scope)
  {
    BatchKeepsConnected(v, a, b, map[p := StagedDir(mode)], scope);
  }

  /** `mkdir` where nothing resolves: nothing in scope is in the new directory, even if
      the committed tree still has the directory that was removed there. */
  lemma MkdirStartsEmpty(v: View, a: Log, b: Log, p: Path, mode: nat, scope: Scope, q: Path)
    requires Connected(v, a.slots, scope) && p != []
    requires Resolve(v, a.slots, p).Absent? && StrictlyUnder(q, p)
    requires Restaged(a, b, map[p := StagedDir(mode)])
    ensures !InScope(scope, Resolve(v, b.slots, q), q)
  {
    NothingUnderNonDir(v, a.slots, scope, p);
    RestagedResolve(v, a, b, map[p := StagedDir(mode)], q);
  }

  // ---- removal ---------------------------------------------------------------

  /** The entries `rename_movers` finds at and under `from`. */
  predicate IsMover(v: View, s: Slots, from: Path, p: Path) {
    match Resolve(v, s, from)
    case Absent => false
    case IsFile(_) => p == from
    case IsDir(_) => p == from || LiveUnder(v, s, from, p)
  }

  function Movers(v: View, s: Slots, from: Path): (movers: set<Path>)
    ensures forall p :: p in movers <==> IsMover(v, s, from, p)
  {
    set p | p in v.Keys + s.Keys && IsMover(v, s, from, p)
  }

  function RemovalOf(paths: set<Path>): map<Path, OverlayEntry> {
    map p | p in paths :: Removed
  }

  lemma MoversFromRoot(v: View, s: Slots, from: Path, q: Path)
    requires StartsWith(q, from) && from != [] && Reach(v, s, [], q) && !Resolve(v, s, q).Absent?
    ensures IsMover(v, s, from, q)
  {
    if q != from {
      ReachThrough(v, s, [], from, q);
    }
  }

  lemma RemoveKeepsConnected(v: View, a: Log, b: Log, p: Path, scope: Scope)
    requires Connected(v, a.slots, scope) && p != []
    requires Restaged(a, b, RemovalOf(Movers(v, a.slots, p)))
    ensures Connected(v, b.slots, scope)
  {
    var batch := RemovalOf(Movers(v, a.slots, p));
    forall m, q | m in batch && StrictlyUnder(q, m) && q !in batch
      ensures !InScope(scope, Resolve(v, a.slots, q), q)
    {
      if InScope(scope, Resolve(v, a.slots, q), q) {
        MoversFromRoot(v, a.slots, p, q);
      }
    }
    BatchKeepsConnected(v, a, b, batch, scope);
  }

  /** `stage_remove`: nothing at or under `p` is live afterwards and every other
      path keeps its answer. Holds in every state, orphans or not. */
  lemma RemoveIsExact(v: View, a: Log, b: Log, p: Path, q: Path)
    requires p != [] && Restaged(a, b, RemovalOf(Movers(v, a.slots, p)))
    ensures StartsWith(q, p) ==> !LiveUnder(v, b.slots, [], q)
    ensures !StartsWith(q, p) ==> (LiveUnder(v, b.slots, [], q) <==> LiveUnder(v, a.slots, [], q))
    ensures !StartsWith(q, p) ==> Resolve(v, b.slots, q) == Resolve(v, a.slots, q)
  {
    var batch := RemovalOf(Movers(v, a.slots, p));
    forall r | !StartsWith(r, p)
      ensures Resolve(v, b.slots, r) == Resolve(v, a.slots, r)
    {
      RestagedResolve(v, a, b, batch, r);
    }
    RestagedResolve(v, a, b, batch, p);
    assert Resolve(v, b.slots, p).Absent?;
    assert StartsWith(q, p) ==> q == p || StrictlyUnder(q, p);
    if StrictlyUnder(q, p) && LiveUnder(v, b.slots, [], q) {
      ReachThrough(v, b.slots, [], p, q);
    }
    if !StartsWith(q, p) {
      forall k | 0 <= k < |q|
        ensures !StartsWith(q[..k], p)
      {
        assert StartsWith(q, q[..k]);
      }
    }
  }

  lemma RemoveLiveFiles(v: View, a: Log, b: Log, p: Path, ignored: set<Name>, q: Path)
    requires p != [] && Restaged(a, b, RemovalOf(Movers(v, a.slots, p)))
    ensures LiveAt(v, b.slots, ignored, q) ==
            if StartsWith(q, p) then None else LiveAt(v, a.slots, ignored, q)
  {
    RemoveIsExact(v, a, b, p, q);
  }

  /** `unlink` of a live file, and `rmdir` of a directory with no live children,
      are removals of exactly that entry. */
  lemma LoneRemovalIsRemove(v: View, s: Slots, p: Path)
    requires Resolve(v, s, p).IsFile? || (Resolve(v, s, p).IsDir? && LiveChildren(v, s, p) == {})
    ensures Movers(v, s, p) == {p}
  {
    forall q | LiveUnder(v, s, p, q)
      ensures Resolve(v, s, p).IsFile?
    {
      var c := q[..|p| + 1];
      assert IsParentOf(p, c) by { assert c[..|c| - 1] == p; }
      if |c| < |q| {
        assert Resolve(v, s, q[..|p| + 1]).IsDir?;
      } else {
        assert c == q;
      }
      assert c !in LiveChildren(v, s, p) ==> Resolve(v, s, c).Absent?;
    }
  }

  // ---- rename ----------------------------------------------------------------

  /** `remap`. */
  function Remap(from: Path, to: Path, src: Path): Path
    requires StartsWith(src, from)
  {
    to + Strip(src, from)
  }

  /** The entry a mover reappears as. */
  function MovedEntry(v: View, s: Slots, src: Path): OverlayEntry {
    match Resolve(v, s, src)
    case IsDir(m) => StagedDir(m)
    case IsFile(d) => StagedFile(d)
    case Absent => Removed
  }

  predicate IsImage(v: View, s: Slots, from: Path, to: Path, p: Path) {
    StartsWith(p, to) && IsMover(v, s, from, from + Strip(p, to))
  }

  ghost predicate MovesAFile(v: View, s: Slots, from: Path) {
    exists src :: IsMover(v, s, from, src) && Resolve(v, s, src).IsFile?
  }

  /** What a rename stages at `p`: a removal at every mover, the moved entry at
      every image, and the directories missing above the destination when a file moves. */
  ghost function RenameEntry(v: View, s: Slots, from: Path, to: Path, p: Path): Option<OverlayEntry> {
    if IsMover(v, s, from, p) then Some(Removed)
    else if IsImage(v, s, from, to, p) then Some(MovedEntry(v, s, from + Strip(p, to)))
    else if p in MissingDirs(v, s, to) && MovesAFile(v, s, from) then Some(StagedDir(DIR_MODE))
    else None
  }

  ghost predicate IsRenameBatch(v: View, s: Slots, from: Path, to: Path, batch: map<Path, OverlayEntry>) {
    forall p :: RenameEntry(v, s, from, to, p) == if p in batch then Some(batch[p]) else None
  }

  /** Source and destination lie apart and nothing is in the way above the destination. */
  ghost predicate Apart(v: View, s: Slots, from: Path, to: Path) {
    from != [] && to != [] && Disjoint(from, to) && ClearAbove(v, s, to)
  }

  /** ... and no file is moved onto a directory. The destination itself may be taken:
      a file replaces a file, and a directory merges with what is there. */
  ghost predicate CanMove(v: View, s: Slots, from: Path, to: Path) {
    && Apart(v, s, from, to)
    && forall src | IsMover(v, s, from, src) && Resolve(v, s, src).IsFile? :: !Resolve(v, s, Remap(from, to, src)).IsDir?
  }

  /** The path lies under the image of a moved file. */
  ghost predicate Covered(v: View, s: Slots, from: Path, to: Path, p: Path) {
    exists k :: IsFileImage(v, s, from, to, p, k)
  }

  predicate IsFileImage(v: View, s: Slots, from: Path, to: Path, p: Path, k: int) {
    && |to| <= k < |p| && IsImage(v, s, from, to, p[..k])
    && Resolve(v, s, from + Strip(p[..k], to)).IsFile?
  }

  lemma ImageUnderDestination(v: View, s: Slots, from: Path, to: Path, p: Path)
    requires Disjoint(from, to)
    ensures IsMover(v, s, from, p) ==> StartsWith(p, from) && !StartsWith(p, to) && !StrictlyUnder(to, p)
    ensures IsImage(v, s, from, to, p) ==> !StartsWith(p, from)
    ensures p in MissingDirs(v, s, to) ==> !StartsWith(p, from) && !StartsWith(p, to)
  {
    if StartsWith(p, from) {
      if StartsWith(p, to) {
        PrefixesCompare(from, to, p);
      }
    }
  }

  /** Above an image: the directories leading to `to`, `to` itself, images of directories. */
  lemma AboveImage(v: View, s: Slots, from: Path, to: Path, batch: map<Path, OverlayEntry>, p: Path, k: nat)
    requires Apart(v, s, from, to) && IsRenameBatch(v, s, from, to, batch)
    requires IsImage(v, s, from, to, p) && |to| <= k < |p|
    ensures p[..k] in batch && batch[p[..k]].StagedDir?
  {
    var a, src := p[..k], from + Strip(p, to);
    var up := from + Strip(a, to);
    assert StartsWith(a, to) && up == src[..|from| + k - |to|];
    assert IsMover(v, s, from, up) && Resolve(v, s, up).IsDir? by {
      assert Resolve(v, s, from).IsDir?;
      if up != from {
        forall j | |from| < j < |up|
          ensures Resolve(v, s, up[..j]).IsDir?
        {
          assert up[..j] == src[..j];
        }
      }
    }
    ImageUnderDestination(v, s, from, to, a);
    assert RenameEntry(v, s, from, to, a) == if a in batch then Some(batch[a]) else None;
  }

  /** Above an image of a file, everything is a directory once the batch is staged. */
  lemma ImageParents(v: View, s: Slots, from: Path, to: Path, batch: map<Path, OverlayEntry>, p: Path, k: nat)
    requires Apart(v, s, from, to) && IsRenameBatch(v, s, from, to, batch)
    requires IsImage(v, s, from, to, p) && 0 < k < |p|
    requires k < |to| ==> MovesAFile(v, s, from) || ParentsAreDirs(v, s, to)
    ensures After(v, s, batch, p[..k]).IsDir?
  {
    if |to| <= k {
      AboveImage(v, s, from, to, batch, p, k);
    } else {
      var a := p[..k];
      assert a == to[..k] && StrictlyUnder(to, a);
      ImageUnderDestination(v, s, from, to, a);
      assert !StartsWith(a, to) && !IsMover(v, s, from, a);
      assert RenameEntry(v, s, from, to, a) == if a in batch then Some(batch[a]) else None;
    }
  }

  /** What the batch makes of a path: a mover goes, an image takes over, the rest stays
      but for markers where nothing was. */
  lemma AfterRename(v: View, s: Slots, from: Path, to: Path, batch: map<Path, OverlayEntry>, p: Path)
    requires Apart(v, s, from, to) && IsRenameBatch(v, s, from, to, batch)
    ensures IsMover(v, s, from, p) ==> After(v, s, batch, p).Absent?
    ensures IsImage(v, s, from, to, p) ==> After(v, s, batch, p) == Resolve(v, s, from + Strip(p, to))
    ensures !IsMover(v, s, from, p) && !IsImage(v, s, from, to, p) ==>
              After(v, s, batch, p) == Resolve(v, s, p) || (Resolve(v, s, p).Absent? && After(v, s, batch, p).IsDir?)
  {
    assert RenameEntry(v, s, from, to, p) == if p in batch then Some(batch[p]) else None;
    ImageUnderDestination(v, s, from, to, p);
    if p in MissingDirs(v, s, to) {
      assert p == to[..|p|];
    }
  }

  /** A path that is neither mover nor image keeps directories above it exactly when it
      is not under the image of a file. */
  lemma StayerReachedIff(v: View, s: Slots, from: Path, to: Path, batch: map<Path, OverlayEntry>, b: Slots, p: Path)
    requires Apart(v, s, from, to) && IsRenameBatch(v, s, from, to, batch)
    requires forall q :: Resolve(v, b, q) == After(v, s, batch, q)
    requires Reach(v, s, [], p) && !Resolve(v, s, p).Absent?
    requires !IsMover(v, s, from, p) && !IsImage(v, s, from, to, p)
    ensures Reach(v, b, [], p) <==> !Covered(v, s, from, to, p)
  {
    forall k | 0 < k < |p|
      ensures Resolve(v, b, p[..k]).IsDir? <==> !IsFileImage(v, s, from, to, p, k)
    {
      var a := p[..k];
      AfterRename(v, s, from, to, batch, a);
      if IsMover(v, s, from, a) {
        ImageUnderDestination(v, s, from, to, a);
        PrefixTransitive(p, a, from);
        MoversFromRoot(v, s, from, p);
        assert false;
      }
      if IsImage(v, s, from, to, a) {
        assert StartsWith(a, to);
      }
    }
  }

  /** A moved file is live at its image. */
  lemma ImageReached(v: View, s: Slots, from: Path, to: Path, batch: map<Path, OverlayEntry>, b: Slots, p: Path)
    requires Apart(v, s, from, to) && IsRenameBatch(v, s, from, to, batch)
    requires forall q :: Resolve(v, b, q) == After(v, s, batch, q)
    requires IsImage(v, s, from, to, p) && Resolve(v, s, from + Strip(p, to)).IsFile?
    ensures Reach(v, b, [], p) && Resolve(v, b, p) == Resolve(v, s, from + Strip(p, to))
  {
    AfterRename(v, s, from, to, batch, p);
    forall k | 0 < k < |p|
      ensures Resolve(v, b, p[..k]).IsDir?
    {
      ImageParents(v, s, from, to, batch, p, k);
    }
  }

  /** `stage_rename` on the live files, whatever the destination holds: a moved file is
      live at its image with its bytes and mode, over what was there; nothing stays at or
      under `from`; what else is under `to` stays, unless a moved file lands above it;
      every other path is as it was. */
  lemma RenameIsExact(v: View, a: Log, b: Log, from: Path, to: Path, batch: map<Path, OverlayEntry>, ignored: set<Name>, p: Path)
    requires Connected(v, a.slots, Files(ignored)) && Apart(v, a.slots, from, to)
    requires !Ignored(ignored, from) && !Ignored(ignored, to)
    requires IsRenameBatch(v, a.slots, from, to, batch) && Restaged(a, b, batch)
    ensures LiveAt(v, b.slots, ignored, p) ==
            if IsImage(v, a.slots, from, to, p) then LiveAt(v, a.slots, ignored, from + Strip(p, to))
            else if StartsWith(p, from) || Covered(v, a.slots, from, to, p) then None
            else LiveAt(v, a.slots, ignored, p)
  {
    var s := a.slots;
    forall q
      ensures Resolve(v, b.slots, q) == After(v, s, batch, q)
    {
      RestagedResolve(v, a, b, batch, q);
    }
    AfterRename(v, s, from, to, batch, p);
    ImageUnderDestination(v, s, from, to, p);
    if IsImage(v, s, from, to, p) {
      ImageIsExact(v, s, from, to, batch, b.slots, ignored, p);
    } else if StartsWith(p, from) {
      MovedAway(v, s, from, to, batch, b.slots, ignored, p);
    } else {
      StayerIsExact(v, s, from, to, batch, b.slots, ignored, p);
    }
  }

  lemma ImageIsExact(v: View, s: Slots, from: Path, to: Path, batch: map<Path, OverlayEntry>, b: Slots, ignored: set<Name>, p: Path)
    requires Connected(v, s, Files(ignored)) && Apart(v, s, from, to) && IsRenameBatch(v, s, from, to, batch)
    requires !Ignored(ignored, from) && !Ignored(ignored, to)
    requires forall q :: Resolve(v, b, q) == After(v, s, batch, q)
    requires IsImage(v, s, from, to, p)
    ensures LiveAt(v, b, ignored, p) == LiveAt(v, s, ignored, from + Strip(p, to))
  {
    var src := from + Strip(p, to);
    assert p[0] == to[0] && src[0] == from[0];
    AfterRename(v, s, from, to, batch, p);
    if Resolve(v, s, src).IsFile? {
      ImageReached(v, s, from, to, batch, b, p);
      assert InScope(Files(ignored), Resolve(v, s, src), src);
    }
  }

  lemma MovedAway(v: View, s: Slots, from: Path, to: Path, batch: map<Path, OverlayEntry>, b: Slots, ignored: set<Name>, p: Path)
    requires Connected(v, s, Files(ignored)) && Apart(v, s, from, to) && IsRenameBatch(v, s, from, to, batch)
    requires forall q :: Resolve(v, b, q) == After(v, s, batch, q)
    requires StartsWith(p, from)
    ensures LiveAt(v, b, ignored, p) == None
  {
    ImageUnderDestination(v, s, from, to, p);
    AfterRename(v, s, from, to, batch, p);
    if InScope(Files(ignored), Resolve(v, s, p), p) {
      MoversFromRoot(v, s, from, p);
    }
  }

  lemma StayerIsExact(v: View, s: Slots, from: Path, to: Path, batch: map<Path, OverlayEntry>, b: Slots, ignored: set<Name>, p: Path)
    requires Connected(v, s, Files(ignored)) && Apart(v, s, from, to) && IsRenameBatch(v, s, from, to, batch)
    requires forall q :: Resolve(v, b, q) == After(v, s, batch, q)
    requires !StartsWith(p, from) && !IsImage(v, s, from, to, p)
    ensures LiveAt(v, b, ignored, p) == if Covered(v, s, from, to, p) then None else LiveAt(v, s, ignored, p)
  {
    ImageUnderDestination(v, s, from, to, p);
    AfterRename(v, s, from, to, batch, p);
    if InScope(Files(ignored), Resolve(v, s, p), p) {
      StayerReachedIff(v, s, from, to, batch, b, p);
    }
  }

  /** Onto a file, or where nothing is live, a rename is the one POSIX asks for. In
      general the destination holds exactly what the source held if and only if every
      live file there gives way to something moved. */
  lemma RenameReplacesIff(v: View, a: Log, b: Log, from: Path, to: Path, batch: map<Path, OverlayEntry>, ignored: set<Name>)
    requires Connected(v, a.slots, Files(ignored)) && Apart(v, a.slots, from, to)
    requires !Ignored(ignored, from) && !Ignored(ignored, to)
    requires IsRenameBatch(v, a.slots, from, to, batch) && Restaged(a, b, batch)
    ensures (forall p | StartsWith(p, to) :: LiveAt(v, b.slots, ignored, p) == LiveAt(v, a.slots, ignored, from + Strip(p, to)))
            <==> forall p | StartsWith(p, to) && LiveAt(v, a.slots, ignored, p).Some? ::
                   IsImage(v, a.slots, from, to, p) || Covered(v, a.slots, from, to, p)
  {
    var s := a.slots;
    forall p | StartsWith(p, to)
      ensures LiveAt(v, b.slots, ignored, p) == LiveAt(v, s, ignored, from + Strip(p, to)) <==>
              (LiveAt(v, s, ignored, p).Some? ==> IsImage(v, s, from, to, p) || Covered(v, s, from, to, p))
    {
      RenameIsExact(v, a, b, from, to, batch, ignored, p);
      ImageUnderDestination(v, s, from, to, p);
      if StartsWith(p, from) {
        PrefixesCompare(from, to, p);
      }
      var src := from + Strip(p, to);
      if LiveAt(v, s, ignored, src).Some? {
        MoversFromRoot(v, s, from, src);
      }
    }
  }

  /** A rename cuts no file off exactly when no live file is under the image of a moved one. */
  lemma RenameConnectedIff(v: View, a: Log, b: Log, from: Path, to: Path, batch: map<Path, OverlayEntry>, ignored: set<Name>)
    requires Connected(v, a.slots, Files(ignored)) && Apart(v, a.slots, from, to)
    requires IsRenameBatch(v, a.slots, from, to, batch) && Restaged(a, b, batch)
    ensures Connected(v, b.slots, Files(ignored)) <==>
            forall p | InScope(Files(ignored), Resolve(v, a.slots, p), p) && !StartsWith(p, from) ::
              IsImage(v, a.slots, from, to, p) || !Covered(v, a.slots, from, to, p)
  {
    var s := a.slots;
    forall q
      ensures Resolve(v, b.slots, q) == After(v, s, batch, q)
    {
      RestagedResolve(v, a, b, batch, q);
    }
    forall p
      ensures InScope(Files(ignored), Resolve(v, b.slots, p), p) && !Reach(v, b.slots, [], p) <==>
              InScope(Files(ignored), Resolve(v, s, p), p) && !StartsWith(p, from)
              && !IsImage(v, s, from, to, p) && Covered(v, s, from, to, p)
    {
      AfterRename(v, s, from, to, batch, p);
      ImageUnderDestination(v, s, from, to, p);
      if IsImage(v, s, from, to, p) {
        if Resolve(v, s, from + Strip(p, to)).IsFile? {
          ImageReached(v, s, from, to, batch, b.slots, p);
        }
      } else if InScope(Files(ignored), Resolve(v, s, p), p) {
        if StartsWith(p, from) {
          MoversFromRoot(v, s, from, p);
        } else {
          StayerReachedIff(v, s, from, to, batch, b.slots, p);
        }
      }
    }
  }

  /** When no file is moved onto a directory nothing is left under a moved file. */
  lemma NothingCovered(v: View, s: Slots, from: Path, to: Path, scope: Scope, p: Path)
    requires Connected(v, s, scope) && CanMove(v, s, from, to)
    requires Covered(v, s, from, to, p)
    ensures !InScope(scope, Resolve(v, s, p), p)
  {
    var k :| IsFileImage(v, s, from, to, p, k);
    var a := p[..k];
    var src := from + Strip(a, to);
    assert StartsWith(src, from) && Strip(src, from) == Strip(a, to) && Remap(from, to, src) == a;
    NothingUnderNonDir(v, s, scope, a);
  }

  /** In either scope a rename that moves no file onto a directory cuts nothing off. */
  lemma RenameKeepsConnected(v: View, a: Log, b: Log, from: Path, to: Path, batch: map<Path, OverlayEntry>, scope: Scope)
    requires Connected(v, a.slots, scope) && CanMove(v, a.slots, from, to)
    requires scope.Everything? ==> ParentsAreDirs(v, a.slots, to)
    requires IsRenameBatch(v, a.slots, from, to, batch) && Restaged(a, b, batch)
    ensures Connected(v, b.slots, scope)
  {
    var s := a.slots;
    forall q
      ensures Resolve(v, b.slots, q) == After(v, s, batch, q)
    {
      RestagedResolve(v, a, b, batch, q);
    }
    forall p | InScope(scope, Resolve(v, b.slots, p), p)
      ensures Reach(v, b.slots, [], p)
    {
      RenamedReached(v, s, from, to, batch, b.slots, scope, p);
    }
  }

  lemma RenamedReached(v: View, s: Slots, from: Path, to: Path, batch: map<Path, OverlayEntry>, b: Slots, scope: Scope, p: Path)
    requires Connected(v, s, scope) && CanMove(v, s, from, to) && IsRenameBatch(v, s, from, to, batch)
    requires scope.Everything? ==> ParentsAreDirs(v, s, to)
    requires forall q :: Resolve(v, b, q) == After(v, s, batch, q)
    requires InScope(scope, Resolve(v, b, p), p)
    ensures Reach(v, b, [], p)
  {
    AfterRename(v, s, from, to, batch, p);
    ImageUnderDestination(v, s, from, to, p);
    if IsImage(v, s, from, to, p) {
      forall k | 0 < k < |p|
        ensures Resolve(v, b, p[..k]).IsDir?
      {
        assert scope.Files? ==> MovesAFile(v, s, from);
        ImageParents(v, s, from, to, batch, p, k);
      }
    } else if InScope(scope, Resolve(v, s, p), p) {
      if Covered(v, s, from, to, p) {
        NothingCovered(v, s, from, to, scope, p);
        assert false;
      }
      StayerReachedIff(v, s, from, to, batch, b, p);
    } else {
      MarkerReached(v, s, from, to, batch, b, p);
    }
  }

  /** A marker staged above the destination has directories above it. */
  lemma MarkerReached(v: View, s: Slots, from: Path, to: Path, batch: map<Path, OverlayEntry>, b: Slots, p: Path)
    requires Apart(v, s, from, to) && IsRenameBatch(v, s, from, to, batch)
    requires forall q :: Resolve(v, b, q) == After(v, s, batch, q)
    requires !IsImage(v, s, from, to, p) && p in batch && batch[p].StagedDir?
    ensures Reach(v, b, [], p)
  {
    assert RenameEntry(v, s, from, to, p) == Some(batch[p]);
    assert StrictlyUnder(to, p);
    forall k | 0 < k < |p|
      ensures Resolve(v, b, p[..k]).IsDir?
    {
      var a := p[..k];
      assert a == to[..k] && StrictlyUnder(to, a);
      ImageUnderDestination(v, s, from, to, a);
      assert RenameEntry(v, s, from, to, a) == if a in batch then Some(batch[a]) else None;
    }
  }
}
