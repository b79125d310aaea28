/** The mount's shared state and the operations that update it in place
    (crates/softfig-fuse/src/fs.rs, crates/softfig-vcs/src/repo.rs). Each method is
    one atomic step. */
module Mount {
  import opened Paths
  import opened Trees
  import opened Chains
  import opened Views
  import opened Overlays
  import opened Live
  import opened Staging
  import opened Protocol
  import opened Durability
  import opened Reads
  import opened Inodes

  /** How a handler answers the kernel. */
  datatype Reply = Done | ENoEnt | EBusy | ENotEmpty | EIsDir | EIo | ENoSys | EExist

  // ---- the rename loops ------------------------------------------------------

  /** A path the marker pass may stage while files move: a directory missing above
      the destination, or the image of a directory still to be moved. */
  predicate IsGap(v: View, s: Slots, from: Path, to: Path, q: Path) {
    || q in MissingDirs(v, s, to)
    || (IsImage(v, s, from, to, q) && Resolve(v, s, from + Strip(q, to)).IsDir?)
  }

  /** `batch` holds the removal and the image of `src`. */
  predicate IsMoved(v: View, s: Slots, from: Path, to: Path, batch: map<Path, OverlayEntry>, src: Path) {
    && IsMover(v, s, from, src) && StartsWith(src, from)
    && src in batch && batch[src] == Removed
    && Remap(from, to, src) in batch && batch[Remap(from, to, src)] == MovedEntry(v, s, src)
  }

  /** `q` is in `batch` for a reason: it was moved, it is an image, or a marker was due there. */
  predicate IsAccounted(v: View, s: Slots, from: Path, to: Path, done: set<Path>, batch: map<Path, OverlayEntry>, q: Path)
    requires q in batch
  {
    || q in done
    || (StartsWith(q, to) && from + Strip(q, to) in done)
    || (IsGap(v, s, from, to, q) && batch[q] == StagedDir(DIR_MODE))
  }

  /** `batch` is what has been staged once the movers in `done` are moved. */
  ghost predicate Moving(v: View, s: Slots, from: Path, to: Path, done: set<Path>, batch: map<Path, OverlayEntry>) {
    && (forall src | src in done :: IsMoved(v, s, from, to, batch, src))
    && (forall q | q in batch :: IsAccounted(v, s, from, to, done, batch, q))
    && (forall a | a in MissingDirs(v, s, to) :: a in batch <==> HasFile(v, s, done))
  }

  ghost predicate HasFile(v: View, s: Slots, done: set<Path>) {
    exists src :: src in done && Resolve(v, s, src).IsFile?
  }

  lemma MoverPlaces(v: View, s: Slots, from: Path, to: Path, src: Path)
    requires Disjoint(from, to) && IsMover(v, s, from, src)
    ensures StartsWith(src, from) && !StartsWith(src, to) && src !in MissingDirs(v, s, to)
    ensures StartsWith(Remap(from, to, src), to) && from + Strip(Remap(from, to, src), to) == src
    ensures IsImage(v, s, from, to, Remap(from, to, src)) && !StartsWith(Remap(from, to, src), from)
  {
    ImageUnderDestination(v, s, from, to, src);
    StripAppend(to, Strip(src, from));
    ImageUnderDestination(v, s, from, to, Remap(from, to, src));
  }

  /** The directories the marker pass finds missing above a file's destination are gaps. */
  lemma MissingAreGaps(v: View, s: Slots, from: Path, to: Path, src: Path, q: Path)
    requires Disjoint(from, to) && IsMover(v, s, from, src) && StartsWith(src, from)
    requires q != [] && StrictlyUnder(Remap(from, to, src), q) && q !in s && !DirIn(v, q)
    ensures IsGap(v, s, from, to, q)
  {
    var dst := Remap(from, to, src);
    if |q| < |to| {
      assert q == dst[..|q|] == to[..|q|];
    } else {
      assert q == dst[..|q|];
      var up := from + Strip(q, to);
      assert up == src[..|from| + |q| - |to|];
      assert Resolve(v, s, from).IsDir?;
      if up != from {
        forall j | |from| < j < |up|
          ensures Resolve(v, s, up[..j]).IsDir?
        {
          assert up[..j] == src[..j];
        }
      }
    }
  }

  /** What moving one file stages on top of `batch`. */
  function MoveFileBatch(v: View, now: Log, batch: map<Path, OverlayEntry>, src: Path, dst: Path, data: FileData): map<Path, OverlayEntry> {
    (batch[src := Removed] + DirMarkers(MissingDirs(v, Overlays.Stage(now, src, Removed).slots, dst)))[dst := StagedFile(data)]
  }

  lemma MarkersAreNew(v: View, a: Log, from: Path, to: Path, batch: map<Path, OverlayEntry>, src: Path, now: Log, q: Path)
    requires Disjoint(from, to) && Restaged(a, now, batch)
    requires IsMover(v, a.slots, from, src) && StartsWith(src, from)
    requires q in MissingDirs(v, Overlays.Stage(now, src, Removed).slots, Remap(from, to, src))
    ensures IsGap(v, a.slots, from, to, q) && q !in batch && q != src && q != Remap(from, to, src)
  {
    MissingAreGaps(v, a.slots, from, to, src, q);
  }

  lemma MoveFileAccounts(v: View, s: Slots, from: Path, to: Path, done: set<Path>, batch: map<Path, OverlayEntry>,
                         src: Path, dirs: set<Path>, dst: Path, data: FileData, q: Path)
    requires StartsWith(dst, to) && from + Strip(dst, to) == src
    requires q in dirs ==> q !in batch && q != src && q != dst && IsGap(v, s, from, to, q)
    requires q in batch ==> IsAccounted(v, s, from, to, done, batch, q)
    requires q in (batch[src := Removed] + DirMarkers(dirs))[dst := StagedFile(data)]
    ensures IsAccounted(v, s, from, to, done + {src}, (batch[src := Removed] + DirMarkers(dirs))[dst := StagedFile(data)], q)
  {
  }

  /** Moving one more file. */
  lemma MoveFileStep(v: View, a: Log, from: Path, to: Path, done: set<Path>, batch: map<Path, OverlayEntry>, src: Path, now: Log)
    requires Disjoint(from, to) && Moving(v, a.slots, from, to, done, batch) && Restaged(a, now, batch)
    requires IsMover(v, a.slots, from, src) && Resolve(v, a.slots, src).IsFile? && src !in done
    requires StartsWith(src, from)
    ensures Moving(v, a.slots, from, to, done + {src},
                   MoveFileBatch(v, now, batch, src, Remap(from, to, src), Resolve(v, a.slots, src).data))
  {
    var s, dst, data := a.slots, Remap(from, to, src), Resolve(v, a.slots, src).data;
    var dirs := MissingDirs(v, Overlays.Stage(now, src, Removed).slots, dst);
    var next := MoveFileBatch(v, now, batch, src, dst, data);
    MoverPlaces(v, s, from, to, src);
    forall q | q in dirs
      ensures IsGap(v, s, from, to, q) && q !in batch && q != src && q != dst
    {
      MarkersAreNew(v, a, from, to, batch, src, now, q);
    }
    forall m | m in done + {src}
      ensures IsMoved(v, s, from, to, next, m)
    {
      if m != src {
        assert IsMoved(v, s, from, to, batch, m);
        MoverPlaces(v, s, from, to, m);
      }
    }
    forall q | q in next
      ensures IsAccounted(v, s, from, to, done + {src}, next, q)
    {
      MoveFileAccounts(v, s, from, to, done, batch, src, dirs, dst, data, q);
    }
    assert HasFile(v, s, done + {src});
    forall m | m in MissingDirs(v, s, to)
      ensures m in next
    {
      assert StrictlyUnder(dst, m);
      assert m !in dirs ==> m in Overlays.Stage(now, src, Removed).slots;
    }
  }

  lemma MoveDirStep(v: View, s: Slots, from: Path, to: Path, done: set<Path>, batch: map<Path, OverlayEntry>, src: Path)
    requires Disjoint(from, to) && Moving(v, s, from, to, done, batch)
    requires IsMover(v, s, from, src) && Resolve(v, s, src).IsDir? && src !in done && StartsWith(src, from)
    ensures Moving(v, s, from, to, done + {src}, batch[src := Removed][Remap(from, to, src) := MovedEntry(v, s, src)])
  {
    var dst := Remap(from, to, src);
    var next := batch[src := Removed][dst := MovedEntry(v, s, src)];
    MoverPlaces(v, s, from, to, src);
    forall m | m in done + {src}
      ensures IsMoved(v, s, from, to, next, m)
    {
      if m != src {
        assert IsMoved(v, s, from, to, batch, m);
        MoverPlaces(v, s, from, to, m);
      }
    }
    forall q | q in next
      ensures IsAccounted(v, s, from, to, done + {src}, next, q)
    {
      if q in batch {
        assert IsAccounted(v, s, from, to, done, batch, q);
      }
    }
    assert HasFile(v, s, done + {src}) <==> HasFile(v, s, done) by {
      assert forall x | x in done + {src} && Resolve(v, s, x).IsFile? :: x in done;
    }
    assert forall m | m in MissingDirs(v, s, to) :: StrictlyUnder(to, m) && m != dst && m != src;
  }

  /** The first `n` paths of a list. */
  function Firsts(list: seq<Path>, n: nat): set<Path>
    requires n <= |list|
  {
    set p | p in list[..n]
  }

  lemma NextOf(list: seq<Path>, i: nat)
    requires i < |list|
    ensures list[i] in list && Firsts(list, i + 1) == Firsts(list, i) + {list[i]}
    ensures NoRepeats(list) ==> list[i] !in Firsts(list, i)
  {
    assert list[..i + 1] == list[..i] + [list[i]];
  }

  lemma AllOf(list: seq<Path>)
    ensures Firsts(list, |list|) == set p | p in list
  {
    assert list[..|list|] == list;
  }

  lemma AncestorOfLength(p: Path, k: nat)
    requires k < |p|
    ensures StrictlyUnder(p, p[..k]) && forall a | StrictlyUnder(p, a) && |a| == k :: a == p[..k]
  {
  }

  lemma OneMoreMarker(batch: map<Path, OverlayEntry>, done: set<Path>, a: Path)
    ensures (batch + DirMarkers(done))[a := StagedDir(DIR_MODE)] == batch + DirMarkers(done + {a})
    ensures batch + DirMarkers({}) == batch
  {
  }

  lemma ForgetOne(before: map<Path, nat>, t: Table, done: set<Path>, p: Path)
    requires t.byPath == before - done && Consistent(t)
    ensures Forgotten(t, p).byPath == before - (done + {p}) && Consistent(Forgotten(t, p))
  {
    CallKeepsConsistent(t, Inodes.Call.Forget(p));
  }

  lemma OneMoreRemoval(done: set<Path>, p: Path)
    ensures RemovalOf(done)[p := Removed] == RemovalOf(done + {p})
    ensures RemovalOf({}) == map[]
  {
  }

  /** Every path under `from` that had an inode still has it: at its image once moved,
      in place until then. */
  predicate Carried(before: map<Path, nat>, now: map<Path, nat>, from: Path, to: Path, done: set<Path>) {
    forall p | p in before && StartsWith(p, from) ::
      var at := if p in done then Remap(from, to, p) else p;
      at in now && now[at] == before[p]
  }

  lemma CarryOne(before: map<Path, nat>, t: Table, from: Path, to: Path, done: set<Path>, src: Path)
    requires Disjoint(from, to) && StartsWith(src, from) && src !in done
    requires Carried(before, t.byPath, from, to, done) && Consistent(t)
    ensures Consistent(Renamed(t, src, Remap(from, to, src)))
    ensures Carried(before, Renamed(t, src, Remap(from, to, src)).byPath, from, to, done + {src})
  {
    var now := Renamed(t, src, Remap(from, to, src)).byPath;
    CallKeepsConsistent(t, Inodes.Call.Rename(src, Remap(from, to, src)));
    forall p | p in before && StartsWith(p, from)
      ensures var at := if p in done + {src} then Remap(from, to, p) else p; at in now && now[at] == before[p]
    {
      StripAppend(to, Strip(p, from));
      StripAppend(to, Strip(src, from));
      ImagesApart(from, to, p, src);
      ImagesApart(from, to, src, p);
    }
  }

  lemma ImagesApart(from: Path, to: Path, p: Path, q: Path)
    requires Disjoint(from, to) && StartsWith(p, from) && StartsWith(q, from)
    ensures Remap(from, to, p) != q
  {
    if Remap(from, to, p) == q {
      PrefixesCompare(from, to, q);
    }
  }

  /** Once every mover is done, the batch is the rename. */
  lemma AllMoved(v: View, s: Slots, from: Path, to: Path, done: set<Path>, batch: map<Path, OverlayEntry>)
    requires Disjoint(from, to) && Moving(v, s, from, to, done, batch)
    requires done == Movers(v, s, from)
    ensures IsRenameBatch(v, s, from, to, batch)
  {
    forall q
      ensures RenameEntry(v, s, from, to, q) == if q in batch then Some(batch[q]) else None
    {
      ImageUnderDestination(v, s, from, to, q);
      if q in batch {
        assert IsAccounted(v, s, from, to, done, batch, q);
      }
      if IsMover(v, s, from, q) {
        assert IsMoved(v, s, from, to, batch, q);
      }
      if IsImage(v, s, from, to, q) {
        var src := from + Strip(q, to);
        assert IsMoved(v, s, from, to, batch, src);
        assert Strip(src, from) == Strip(q, to) && Remap(from, to, src) == q;
      }
      if q in MissingDirs(v, s, to) && MovesAFile(v, s, from) {
        var src :| IsMover(v, s, from, src) && Resolve(v, s, src).IsFile?;
        assert src in done && HasFile(v, s, done);
      }
      assert q in MissingDirs(v, s, to) && q in batch ==> MovesAFile(v, s, from);
    }
  }

  // ---- the shared state ------------------------------------------------------

  /** `setattr` gets past its refusals. */
  predicate Accepted(path: Option<Path>, mode: Option<nat>, size: Option<nat>, reg: Registry, v: View, s: Slots) {
    && path.Some?
    && !((mode.Some? || size.Some?) && IsEnabledMountRoot(reg, path.value))
    && !(size.Some? && Resolve(v, s, path.value).IsDir?)
  }

  /** The bytes are read back and staged: for a size, and for a mode unless it is a directory's. */
  predicate Restages(path: Option<Path>, mode: Option<nat>, size: Option<nat>, reg: Registry, v: View, s: Slots) {
    && Accepted(path, mode, size, reg, v, s)
    && (size.Some? || (mode.Some? && !Resolve(v, s, path.value).IsDir?))
  }

  /** The file a `setattr` stages out of the bytes read back. */
  function NewAttrFile(v: View, s: Slots, p: Path, bytes: Bytes, mode: Option<nat>, size: Option<nat>): FileData {
    FileData(if size.Some? then Resized(bytes, size.value) else bytes,
             if mode.Some? then mode.value else CurrentMode(v, s, p, FILE_MODE))
  }

  function SetattrReply(ino: nat, path: Option<Path>, mode: Option<nat>, size: Option<nat>, reg: Registry, v: View, s: Slots): Reply {
    if path.None? then ENoEnt
    else if (mode.Some? || size.Some?) && IsEnabledMountRoot(reg, path.value) then EBusy
    else if size.Some? && Resolve(v, s, path.value).IsDir? then EIsDir
    else if Restages(path, mode, size, reg, v, s) || ino == ROOT_INODE || !Resolve(v, s, path.value).Absent? then Done
    else ENoEnt
  }

  /** The store must supply a file under `from` and cannot. */
  ghost predicate MovesUnreadable(v: View, s: Slots, from: Path, broken: set<Path>) {
    exists p :: IsMover(v, s, from, p) && Resolve(v, s, p).IsFile? && p !in s && p in broken
  }

  /** Every mover is in one of the two lists. */
  lemma FilesAndDirs(v: View, s: Slots, from: Path, files: seq<Path>, dirs: seq<Path>)
    requires forall p :: p in files <==> IsMover(v, s, from, p) && Resolve(v, s, p).IsFile?
    requires forall p :: p in dirs <==> IsMover(v, s, from, p) && Resolve(v, s, p).IsDir?
    ensures (set p | p in files) + (set p | p in dirs) == Movers(v, s, from)
    ensures forall p | p in dirs :: p !in files
  {
    forall p | IsMover(v, s, from, p)
      ensures p in files || p in dirs
    {
    }
  }

  /** The mode change keeps a live file's content exactly when it gives its own bytes back. */
  ghost predicate KernelKeeps(rd: Reader, v: View, a: Slots, b: Slots, cache: Cache, p: Path, mode: nat, broken: set<Path>) {
    forall ignored | LiveAt(v, a, ignored, p).Some? ::
      LiveAt(v, b, ignored, p) == Some(LiveAt(v, a, ignored, p).value.(mode := MaskMode(mode)))
      <==> KernelGivesBack(rd, a, cache, p, broken, Resolve(v, a, p).data.content)
  }

  lemma KernelChmodKeeps(rd: Reader, v: View, a: Log, b: Log, cache: Cache, p: Path, mode: nat, broken: set<Path>)
    requires CacheCurrent(rd, v, cache)
    requires b == Overlays.Stage(a, p, StagedFile(FileData(ReadBack(rd, v, a.slots, cache, p, broken), mode)))
    ensures KernelKeeps(rd, v, a.slots, b.slots, cache, p, mode, broken)
  {
    StageRestages(a, p, StagedFile(FileData(ReadBack(rd, v, a.slots, cache, p, broken), mode)));
    forall ignored | LiveAt(v, a.slots, ignored, p).Some?
      ensures LiveAt(v, b.slots, ignored, p) == Some(LiveAt(v, a.slots, ignored, p).value.(mode := MaskMode(mode)))
              <==> KernelGivesBack(rd, a.slots, cache, p, broken, Resolve(v, a.slots, p).data.content)
    {
      KernelChmodIff(rd, v, a, b, cache, p, mode, broken, ignored);
    }
  }

  /** What a reader is given of a live file with this content, or nothing where its object
      cannot be had. */
  function Seen(rd: Reader, s: Slots, cache: Cache, p: Path, broken: set<Path>, content: Bytes): Bytes {
    if rd.isSealed(p) then rd.placeholder(p)
    else if p in s || p in cache || p !in broken then rd.redact(p, content)
    else []
  }

  /** After a size change a live file has its own bytes cut or padded, under the mode given
      or its own, exactly when what was seen of it agrees with it below the new size. */
  ghost predicate KernelResizes(rd: Reader, v: View, a: Slots, b: Slots, cache: Cache, p: Path, size: nat, mode: Option<nat>,
                                broken: set<Path>) {
    forall ignored | LiveAt(v, a, ignored, p).Some? ::
      var was := LiveAt(v, a, ignored, p).value;
      LiveAt(v, b, ignored, p) == Some(FileData(Resized(was.content, size), if mode.Some? then MaskMode(mode.value) else was.mode))
      <==> forall i: nat | i < size :: ByteAt(Seen(rd, a, cache, p, broken, was.content), i) == ByteAt(was.content, i)
  }

  /** A truncation to nothing leaves a live file empty, whatever was seen of it. */
  ghost predicate KernelEmpties(v: View, a: Slots, b: Slots, p: Path, mode: Option<nat>) {
    forall ignored | LiveAt(v, a, ignored, p).Some? ::
      LiveAt(v, b, ignored, p)
      == Some(FileData([], if mode.Some? then MaskMode(mode.value) else LiveAt(v, a, ignored, p).value.mode))
  }

  lemma SeenIsReadBack(rd: Reader, v: View, s: Slots, cache: Cache, p: Path, broken: set<Path>)
    requires CacheCurrent(rd, v, cache) && Resolve(v, s, p).IsFile?
    ensures ReadBack(rd, v, s, cache, p, broken) == Seen(rd, s, cache, p, broken, Resolve(v, s, p).data.content)
  {
  }

  lemma KernelSizeResizes(rd: Reader, v: View, a: Log, b: Log, cache: Cache, p: Path, size: nat, mode: Option<nat>, broken: set<Path>)
    requires CacheCurrent(rd, v, cache)
    requires b == Overlays.Stage(a, p,
                    StagedFile(NewAttrFile(v, a.slots, p, ReadBack(rd, v, a.slots, cache, p, broken), mode, Some(size))))
    ensures KernelResizes(rd, v, a.slots, b.slots, cache, p, size, mode, broken)
    ensures size == 0 ==> KernelEmpties(v, a.slots, b.slots, p, mode)
  {
    var staged := if mode.Some? then mode.value else CurrentMode(v, a.slots, p, FILE_MODE);
    var data := FileData(Resized(ReadBack(rd, v, a.slots, cache, p, broken), size), staged);
    StageRestages(a, p, StagedFile(data));
    forall ignored | LiveAt(v, a.slots, ignored, p).Some?
      ensures var was := LiveAt(v, a.slots, ignored, p).value;
              LiveAt(v, b.slots, ignored, p)
              == Some(FileData(Resized(was.content, size), if mode.Some? then MaskMode(mode.value) else was.mode))
              <==> forall i: nat | i < size :: ByteAt(Seen(rd, a.slots, cache, p, broken, was.content), i) == ByteAt(was.content, i)
    {
      SeenIsReadBack(rd, v, a.slots, cache, p, broken);
      KernelResizeIff(rd, v, a, b, cache, p, size, staged, broken, ignored);
    }
  }

  /** A write changes a live file in the written range and nowhere else exactly when what
      was seen of it agrees with it outside that range. */
  ghost predicate KernelWrites(rd: Reader, v: View, a: Slots, b: Slots, p: Path, start: nat, data: Bytes) {
    forall ignored | LiveAt(v, a, ignored, p).Some? ::
      var was := LiveAt(v, a, ignored, p).value;
      LiveAt(v, b, ignored, p) == Some(was.(content := Spliced(was.content, start, data)))
      <==> SameOutside(Shown(rd, p, was.content), was.content, start, |data|)
  }

  lemma KernelWriteWrites(rd: Reader, v: View, a: Log, b: Log, cache: Cache, p: Path, start: nat, data: Bytes, broken: set<Path>)
    requires CacheCurrent(rd, v, cache) && Answer(rd, v, a.slots, cache, p, broken).Some?
    requires var back := Answer(rd, v, a.slots, cache, p, broken).value;
             b == Overlays.Stage(a, p, StagedFile(FileData(Spliced(back, start, data), CurrentMode(v, a.slots, p, FILE_MODE))))
    ensures KernelWrites(rd, v, a.slots, b.slots, p, start, data)
  {
    var back := Answer(rd, v, a.slots, cache, p, broken).value;
    StageRestages(a, p, StagedFile(FileData(Spliced(back, start, data), CurrentMode(v, a.slots, p, FILE_MODE))));
    forall ignored | LiveAt(v, a.slots, ignored, p).Some?
      ensures var was := LiveAt(v, a.slots, ignored, p).value;
              LiveAt(v, b.slots, ignored, p) == Some(was.(content := Spliced(was.content, start, data)))
              <==> SameOutside(Shown(rd, p, was.content), was.content, start, |data|)
    {
      KernelWriteIff(rd, v, a, b, cache, p, start, data, broken, ignored);
    }
  }

  /** A snapshot must read a committed file whose object cannot be had. */
  ghost predicate MissesObject(w: World, ignored: set<Name>, broken: set<Path>) {
    exists p :: p in Captured(w, ignored) && p in broken && p !in Effective(w.log.slots, MountRoots(w.reg))
  }

  class SharedState {
    /** The refs table, shared with the daemon's writer. */
    var refs: Refs
    var registry: Registry
    var view: View
    const overlay: Overlay
    const inodes: InodeMap
    /** Redacted content of committed files, by path. */
    var cache: map<Path, Bytes>

    const ignored: set<Name>
    const reader: Reader

    /** `build_state`: compose the initial view, start with nothing staged or cached. */
    constructor (refs: Refs, registry: Registry, ignored: set<Name>, reader: Reader)
      requires WellFormed(registry) && TreesAreDirs(refs)
      ensures Valid() && fresh(overlay) && fresh(inodes)
      ensures this.refs == refs && this.registry == registry && this.ignored == ignored && this.reader == reader
      ensures ShowsUnion(view, refs, registry) && overlay.State() == Log(map[], 0) && cache == map[]
      ensures forall p | p in view :: p in inodes.byPath
    {
      this.refs, this.registry, this.ignored, this.reader := refs, registry, ignored, reader;
      view, cache := map[], map[];
      overlay := new Overlay();
      inodes := new InodeMap();
      new;
      var composed := BuildUnion(refs, registry);
      view := composed.byPath;
      InternAll(view.Keys);
    }

    /** Intern every path given, keeping the inodes already handed out. */
    method InternAll(paths: set<Path>)
      requires Consistent(inodes.State())
      modifies inodes
      ensures Consistent(inodes.State())
      ensures forall p | p in paths :: p in inodes.byPath
      ensures forall p | p in old(inodes.byPath) :: p in inodes.byPath && inodes.byPath[p] == old(inodes.byPath)[p]
    {
      var todo := paths;
      while todo != {}
        invariant todo <= paths && Consistent(inodes.State())
        invariant forall p | p in paths && p !in todo :: p in inodes.byPath
        invariant forall p | p in old(inodes.byPath) :: p in inodes.byPath && inodes.byPath[p] == old(inodes.byPath)[p]
      {
        var p :| p in todo;
        var _ := inodes.Intern(p);
        todo := todo - {p};
      }
    }

    ghost function AsWorld(pending: map<Ref, Commit>): World
      reads this, overlay
    {
      World(refs, registry, view, overlay.State(), pending)
    }

    ghost function AsMounted(pending: map<Ref, Commit>): Mounted
      reads this, overlay
    {
      Mounted(AsWorld(pending), cache)
    }

    /** The overlay went through one staging operation of the protocol. */
    ghost predicate StagedStep(before: Log, op: Op)
      reads this, overlay
    {
      exists batch :: OpBatch(view, before.slots, op, batch) && Restaged(before, overlay.State(), batch)
    }

    lemma StageDone(before: Log, op: Op, batch: map<Path, OverlayEntry>)
      requires OpBatch(view, before.slots, op, batch) && Restaged(before, overlay.State(), batch)
      ensures StagedStep(before, op)
      ensures Stamped(before) ==> Stamped(overlay.State())
    {
      if Stamped(before) {
        RestagedStamped(before, overlay.State(), batch);
      }
    }

    /** What every method keeps: a proper registry, refs that hold directory trees,
        generations at most the counter, inode maps that agree, a current cache. */
    ghost predicate Valid()
      reads this, overlay, inodes
    {
      && WellFormed(registry) && TreesAreDirs(refs) && Stamped(overlay.State())
      && Consistent(inodes.State()) && CacheCurrent(reader, view, cache)
    }

    // ---- reads -----------------------------------------------------------------

    /** `read_bytes`: `broken` holds the committed paths whose object cannot be read. */
    method ReadBytes(p: Path, broken: set<Path>) returns (r: Option<Bytes>)
      requires Valid()
      modifies this`cache
      ensures Valid()
      ensures r == Answer(reader, view, overlay.byPath, old(cache), p, broken)
      ensures cache == CacheAfter(reader, view, overlay.byPath, old(cache), p, broken)
      ensures r == if Fetches(reader, view, overlay.byPath, old(cache), p) && p in broken then None
                   else Some(Read(reader, view, overlay.byPath, p))
    {
      AnswerIsRead(reader, view, overlay.byPath, cache, p, broken);
      match overlay.Get(p) {
        case Some(entry) =>
          match entry {
            case StagedFile(d) =>
              return Some(if reader.isSealed(p) then reader.placeholder(p) else reader.redact(p, d.content));
            case StagedDir(_) => return Some([]);
            case Removed => return Some([]);
          }
        case None =>
      }
      if reader.isSealed(p) {
        return Some(reader.placeholder(p));
      }
      if p in cache {
        return Some(cache[p]);
      }
      match BlobAt(view, p) {
        case None => return Some([]);
        case Some(d) =>
          if p in broken {
            return None;
          }
          var redacted := reader.redact(p, d.content);
          cache := cache[p := redacted];
          return Some(redacted);
      }
    }

    /** `read_workfile`: plain content for the daemon. */
    method ReadWorkfile(p: Path, broken: set<Path>) returns (r: Option<Bytes>)
      ensures r == Workfile(view, overlay.byPath, p, broken)
    {
      match overlay.Get(p) {
        case Some(entry) =>
          match entry {
            case StagedFile(d) => return Some(d.content);
            case StagedDir(_) => return Some([]);
            case Removed => return Some([]);
          }
        case None =>
      }
      match BlobAt(view, p) {
        case None => return Some([]);
        case Some(d) => return if p in broken then None else Some(d.content);
      }
    }

    // ---- rotation --------------------------------------------------------------

    /** `rotate_tip`. `fails` is recomposition failing: the old view and the whole
        overlay are kept, only the read cache is gone. */
    method RotateTip(advanced: Option<Ref>, cutoff: Option<nat>, fails: bool)
      requires Valid()
      modifies this`view, this`cache, overlay, inodes
      ensures Valid() && cache == map[]
      ensures fails ==> view == old(view) && overlay.State() == old(overlay.State()) && inodes.State() == old(inodes.State())
      ensures !fails ==> ShowsUnion(view, refs, registry)
      ensures !fails ==>
                overlay.State() == (
                  if advanced.Some? && cutoff.Some?
                  then Log(Absorbed(old(overlay.byPath), cutoff.value, OwnedBy(registry, advanced.value)), old(overlay.generation))
                  else old(overlay.State()))
      ensures !fails ==> forall p | p in view :: p in inodes.byPath
      ensures forall p | p in old(inodes.byPath) :: p in inodes.byPath && inodes.byPath[p] == old(inodes.byPath)[p]
    {
      cache := map[];
      if fails {
        return;
      }
      var composed := BuildUnion(refs, registry);
      view := composed.byPath;
      InternAll(view.Keys);
      if advanced.Some? && cutoff.Some? {
        overlay.RemoveAbsorbed(cutoff.value, OwnedBy(registry, advanced.value));
      }
    }

    // `pending` names the commits in flight, which only the writer's side knows.

    /** `set_registry`: swap, then recompose; nothing is absorbed. */
    method SetRegistry(reg: Registry, fails: bool, ghost pending: map<Ref, Commit>)
      requires Valid() && WellFormed(reg)
      modifies this`registry, this`view, this`cache, overlay, inodes
      ensures Valid()
      ensures MountStep(reader, old(AsMounted(pending)), Do(Swap(reg, !fails)), AsMounted(pending), ignored)
    {
      registry := reg;
      RotateTip(None, None, fails);
    }

    /** `commit_snapshot_to_with` and the rotation its callback fires: a tree equal to
        the one the ref holds is skipped unless the commit is to be recorded anyway. */
    method CommitSnapshot(r: Ref, part: Node, cutoff: nat, record: bool, fails: bool,
                          ghost pending: map<Ref, Commit>) returns (committed: bool)
      requires Valid() && part.Dir? && r in pending && pending[r] == Commit(part, cutoff)
      modifies this`refs, this`view, this`cache, overlay, inodes
      ensures Valid() && registry == old(registry)
      ensures MountStep(reader, old(AsMounted(pending)), Do(Land(r, !fails, record)), AsMounted(pending - {r}), ignored)
      ensures committed <==> record || !(r in old(refs) && old(refs)[r] == part)
    {
      if r in refs && refs[r] == part && !record {
        return false;
      }
      refs := refs[r := part];
      RotateTip(Some(r), Some(cutoff), fails);
      return true;
    }

    /** `commit_over_tree`, the apply step of a pull: the ref advances with no cutoff. */
    method CommitOverTree(r: Ref, tree: Node, fails: bool, ghost pending: map<Ref, Commit>) returns (committed: bool)
      requires Valid() && tree.Dir?
      modifies this`refs, this`view, this`cache, overlay, inodes
      ensures Valid()
      ensures MountStep(reader, old(AsMounted(pending)), Do(Pull(r, tree, !fails)), AsMounted(pending), ignored)
      ensures overlay.State() == old(overlay.State()) && refs == old(refs)[r := tree]
      ensures forall p | p in old(inodes.byPath) :: p in inodes.byPath && inodes.byPath[p] == old(inodes.byPath)[p]
    {
      if r in refs && refs[r] == tree {
        return false;
      }
      refs := refs[r := tree];
      RotateTip(Some(r), None, fails);
      return true;
    }

    // ---- snapshots ---------------------------------------------------------------

    /** `unified_snapshot`: the live, non-ignored files as one tree, with the overlay
        generation they were collected at. Fails exactly when a committed file it
        needs cannot be read. */
    method UnifiedSnapshot(broken: set<Path>) returns (snap: Option<Node>, generation: nat)
      requires Valid()
      ensures generation == overlay.generation
      ensures snap.None? <==> MissesObject(AsWorld(map[]), ignored, broken)
      ensures snap.Some? ==>
                snap.value.Dir? && NoEmptyDirs(snap.value) && Holds(snap.value, Captured(AsWorld(map[]), ignored))
    {
      var roots := MountRoots(registry);
      generation := overlay.generation;
      ghost var depth := LongestPath(view.Keys + overlay.byPath.Keys);
      var list := CollectFiles(view, overlay.byPath, ignored, roots, [], depth);
      // A file the overlay supplies carries its bytes; the others are read here.
      var staged := Effective(overlay.byPath, roots);
      var tree := EmptyTree;
      EmptyHoldsNothing();
      StoredAll(view, staged, ignored, list);
      for i := 0 to |list|
        invariant tree.Dir? && NoEmptyDirs(tree) && Holds(tree, Stored(list, i))
        invariant forall p | p in Stored(list, i) :: !(p in broken && p !in staged)
      {
        var path, data := list[i].0, list[i].1;
        StoredWithin(view, staged, ignored, list, i + 1);
        if path in broken && path !in staged {
          return None, generation;
        }
        StoreOne(view, staged, ignored, list, i, tree);
        InsertKeepsNoEmptyDirs(tree, path, data);
        tree := InsertFile(tree, path, data);
      }
      PruneIsIdentity(tree);
      snap := Some(Prune(tree));
    }

    /** `chain_snapshots`: one commit snapshot per enabled chain, all cut at one generation. */
    method ChainSnapshots(broken: set<Path>) returns (snaps: Option<seq<(Ref, Node)>>, generation: nat)
      requires Valid()
      ensures generation == overlay.generation
      ensures snaps.None? <==> MissesObject(AsWorld(map[]), ignored, broken)
      ensures snaps.Some? ==>
                && |snaps.value| == |EnabledChains(registry)|
                && forall k | 0 <= k < |snaps.value| ::
                     && snaps.value[k].0 == EnabledChains(registry)[k].refName
                     && IsPart(registry, Captured(AsWorld(map[]), ignored), EnabledChains(registry)[k], snaps.value[k].1)
    {
      var unified;
      unified, generation := UnifiedSnapshot(broken);
      match unified {
        case None => return None, generation;
        case Some(tree) =>
          FilesOfHeld(tree, Captured(AsWorld(map[]), ignored));
          LiveFilesPrefixFree(view, Effective(overlay.byPath, MountRoots(registry)), ignored);
          var parts := SplitSnapshot(registry, FilesOf(tree));
          snaps := Some(parts);
      }
    }

    /** `pending_chain_refs`: every chain owning a staged file or removal. */
    method PendingChainRefs() returns (refs: set<Ref>)
      ensures refs == PendingRefs(registry, overlay.byPath)
    {
      refs := {};
      var todo := overlay.byPath.Keys;
      while todo != {}
        invariant todo <= overlay.byPath.Keys
        invariant refs == PendingRefs(registry, map p | p in overlay.byPath && p !in todo :: overlay.byPath[p])
      {
        var p :| p in todo;
        ghost var seen := map q | q in overlay.byPath && q !in todo :: overlay.byPath[q];
        todo := todo - {p};
        ghost var now := map q | q in overlay.byPath && q !in todo :: overlay.byPath[q];
        assert now == seen[p := overlay.byPath[p]];
        if !overlay.byPath[p].entry.StagedDir? {
          refs := refs + {FindOwner(p)};
        }
        assert forall q | q in now && !now[q].entry.StagedDir? :: q == p || q in seen;
      }
      assert overlay.byPath == map p | p in overlay.byPath && p !in todo :: overlay.byPath[p];
    }

    function FindOwner(p: Path): Ref
      reads this
    {
      OwningChain(registry, p).refName
    }

    // ---- staging -----------------------------------------------------------------

    /** `ensure_overlay_dirs`: a marker for every ancestor that has no overlay entry
        and is no committed directory, deepest first. `batch` is what has been staged
        since `start`. */
    method EnsureOverlayDirs(p: Path, ghost start: Log, ghost batch: map<Path, OverlayEntry>)
      requires Restaged(start, overlay.State(), batch)
      modifies overlay
      ensures Restaged(start, overlay.State(), batch + DirMarkers(MissingDirs(view, old(overlay.byPath), p)))
    {
      ghost var missing := MissingDirs(view, overlay.byPath, p);
      ghost var done: set<Path> := {};
      var depth := |p|;
      OneMoreMarker(batch, {}, p);
      while depth > 1
        invariant depth <= |p|
        invariant done <= missing && forall a | a in missing :: a in done <==> |a| >= depth
        invariant forall a | |a| < depth :: a in overlay.byPath <==> a in old(overlay.byPath)
        invariant Restaged(start, overlay.State(), batch + DirMarkers(done))
      {
        depth := depth - 1;
        var anc := p[..depth];
        AncestorOfLength(p, depth);
        assert anc in missing <==> anc !in overlay.byPath && !DirIn(view, anc);
        if anc !in overlay.byPath && !DirIn(view, anc) {
          StageExtends(start, overlay.State(), batch + DirMarkers(done), anc, StagedDir(DIR_MODE));
          overlay.InsertDir(anc, DIR_MODE);
          OneMoreMarker(batch, done, anc);
          done := done + {anc};
        }
      }
      assert done == missing;
    }

    /** The overlay half of `stage_write`. */
    method WriteEntry(p: Path, content: Bytes)
      modifies overlay
      ensures Restaged(old(overlay.State()), overlay.State(), WriteBatch(view, old(overlay.byPath), p, content))
    {
      ghost var start := overlay.State();
      ghost var dirs := DirMarkers(MissingDirs(view, overlay.byPath, p));
      var mode := CurrentMode(view, overlay.byPath, p, FILE_MODE);
      RestagedNothing(start);
      EnsureOverlayDirs(p, start, map[]);
      assert map[] + dirs == dirs;
      StageExtends(start, overlay.State(), dirs, p, StagedFile(FileData(content, mode)));
      overlay.InsertFile(p, content, mode);
    }

    /** `stage_write`. */
    method StageWrite(p: Path, content: Bytes)
      requires Valid()
      modifies overlay, inodes
      ensures Valid() && StagedStep(old(overlay.State()), Op.Write(p, content))
      ensures Restaged(old(overlay.State()), overlay.State(), WriteBatch(view, old(overlay.byPath), p, content))
      ensures inodes.State() == Interned(old(inodes.State()), p)
    {
      ghost var start := overlay.State();
      WriteEntry(p, content);
      StageDone(start, Op.Write(p, content), WriteBatch(view, start.slots, p, content));
      var _ := inodes.Intern(p);
    }

    /** `stage_mode`: nothing is staged for a directory; otherwise the bytes read back
        are staged under the new mode. */
    method StageMode(p: Path, mode: nat, bytes: Bytes) returns (staged: bool)
      requires Valid()
      modifies overlay, inodes
      ensures Valid() && (staged ==> StagedStep(old(overlay.State()), Op.Create(p, FileData(bytes, mode))))
      ensures staged <==> !Resolve(view, old(overlay.byPath), p).IsDir?
      ensures overlay.State() ==
                if staged then Overlays.Stage(old(overlay.State()), p, StagedFile(FileData(bytes, mode)))
                else old(overlay.State())
      ensures inodes.State() == if staged then Interned(old(inodes.State()), p) else old(inodes.State())
    {
      if Resolve(view, overlay.byPath, p).IsDir? {
        return false;
      }
      ghost var start := overlay.State();
      overlay.InsertFile(p, bytes, mode);
      StageRestages(start, p, StagedFile(FileData(bytes, mode)));
      StageDone(start, Op.Create(p, FileData(bytes, mode)), map[p := StagedFile(FileData(bytes, mode))]);
      var _ := inodes.Intern(p);
      return true;
    }

    /** The mount handle's `stage_mode`: the plain content is read back, and a failed
        read counts as an empty file. */
    method StageModeOf(p: Path, mode: nat, broken: set<Path>) returns (staged: bool)
      requires Valid()
      modifies overlay, inodes
      ensures Valid()
      ensures staged <==> !Resolve(view, old(overlay.byPath), p).IsDir?
      ensures overlay.State() ==
                if staged
                then Overlays.Stage(old(overlay.State()), p,
                                    StagedFile(FileData(WorkfileBack(view, old(overlay.byPath), p, broken), mode)))
                else old(overlay.State())
      ensures staged ==> forall ign | LiveAt(view, old(overlay.byPath), ign, p).Some? ::
                LiveAt(view, overlay.byPath, ign, p)
                  == Some(LiveAt(view, old(overlay.byPath), ign, p).value.(mode := MaskMode(mode)))
                <==> HandleGivesBack(view, old(overlay.byPath), p, broken)
    {
      var content := ReadWorkfile(p, broken);
      var bytes := if content.Some? then content.value else [];
      ghost var start := overlay.State();
      staged := StageMode(p, mode, bytes);
      if staged {
        StageRestages(start, p, StagedFile(FileData(bytes, mode)));
        forall ign | LiveAt(view, start.slots, ign, p).Some?
          ensures LiveAt(view, overlay.byPath, ign, p) == Some(LiveAt(view, start.slots, ign, p).value.(mode := MaskMode(mode)))
                  <==> HandleGivesBack(view, start.slots, p, broken)
        {
          HandleChmodIff(view, start, overlay.State(), p, mode, broken, ign);
        }
      }
    }

    /** `attr_for_inode`: it needs a committed file's length, so it reads the file. */
    method AttrFor(ino: nat, broken: set<Path>) returns (found: bool)
      requires Valid()
      modifies this`cache
      ensures Valid()
      ensures var path := inodes.PathOf(ino);
              && (found <==> ino == ROOT_INODE || (path.Some? && !Resolve(view, overlay.byPath, path.value).Absent?))
              && cache == if ino == ROOT_INODE || path.None? then old(cache)
                          else CacheAfter(reader, view, overlay.byPath, old(cache), path.value, broken)
    {
      if ino == ROOT_INODE {
        return true;
      }
      match inodes.PathOf(ino) {
        case None => return false;
        case Some(p) =>
          match overlay.Get(p) {
            case Some(entry) => return !entry.Removed?;
            case None =>
          }
          if p !in view {
            return false;
          }
          if view[p].Blob? {
            var _ := ReadBytes(p, broken);
          }
          return true;
      }
    }

    /** `setattr`. A size truncates or pads what is read back, under the mode given or
        the one the file has; a mode alone goes through `stage_mode`. The reply asks for
        the attributes, which may read the file once more. */
    method Setattr(ino: nat, mode: Option<nat>, size: Option<nat>, broken: set<Path>) returns (r: Reply)
      requires Valid()
      modifies this`cache, overlay, inodes
      ensures Valid()
      ensures r == SetattrReply(ino, old(inodes.PathOf(ino)), mode, size, registry, view, old(overlay.byPath))
      ensures var path := old(inodes.PathOf(ino));
              overlay.State() ==
                if Restages(path, mode, size, registry, view, old(overlay.byPath))
                then Overlays.Stage(old(overlay.State()), path.value,
                       StagedFile(NewAttrFile(view, old(overlay.byPath), path.value,
                         ReadBack(reader, view, old(overlay.byPath), old(cache), path.value, broken), mode, size)))
                else old(overlay.State())
      ensures var path := old(inodes.PathOf(ino));
              cache ==
                if Restages(path, mode, size, registry, view, old(overlay.byPath))
                   || (Accepted(path, mode, size, registry, view, old(overlay.byPath)) && ino != ROOT_INODE)
                then CacheAfter(reader, view, old(overlay.byPath), old(cache), path.value, broken)
                else old(cache)
      ensures var path := old(inodes.PathOf(ino));
              inodes.State() ==
                if Restages(path, mode, size, registry, view, old(overlay.byPath)) && size.None?
                then Interned(old(inodes.State()), path.value)
                else old(inodes.State())
      ensures var path := old(inodes.PathOf(ino));
              Restages(path, mode, size, registry, view, old(overlay.byPath)) && size.None? ==>
                KernelKeeps(reader, view, old(overlay.byPath), overlay.byPath, old(cache), path.value, mode.value, broken)
      ensures var path := old(inodes.PathOf(ino));
              Restages(path, mode, size, registry, view, old(overlay.byPath)) && size.Some? ==>
                && KernelResizes(reader, view, old(overlay.byPath), overlay.byPath, old(cache), path.value, size.value, mode, broken)
                && (size.value == 0 ==> KernelEmpties(view, old(overlay.byPath), overlay.byPath, path.value, mode))
      ensures var path := old(inodes.PathOf(ino));
              && (path.None? ==> r == ENoEnt && overlay.State() == old(overlay.State()))
              && (path.Some? && (mode.Some? || size.Some?) && IsEnabledMountRoot(registry, path.value) ==>
                    r == EBusy && overlay.State() == old(overlay.State()))
              && (path.Some? && Resolve(view, old(overlay.byPath), path.value).IsDir? ==>
                    overlay.State() == old(overlay.State()) && (size.Some? ==> r == EIsDir || r == EBusy))
              && (mode.None? && size.None? ==> overlay.State() == old(overlay.State()))
              && (path.Some? && Resolve(view, old(overlay.byPath), path.value).IsFile? ==>
                    r == Done || IsEnabledMountRoot(registry, path.value))
    {
      match inodes.PathOf(ino) {
        case None => return ENoEnt;
        case Some(p) =>
          if (mode.Some? || size.Some?) && IsEnabledMountRoot(registry, p) {
            return EBusy;
          }
          if size.Some? {
            if Resolve(view, overlay.byPath, p).IsDir? {
              return EIsDir;
            }
            SetSize(p, mode, size.value, broken);
          } else if mode.Some? && !Resolve(view, overlay.byPath, p).IsDir? {
            SetMode(p, mode.value, broken);
          }
          var found := AttrFor(ino, broken);
          return if found then Done else ENoEnt;
      }
    }

    /** A size change, with or without a mode. */
    method SetSize(p: Path, mode: Option<nat>, size: nat, broken: set<Path>)
      requires Valid()
      modifies this`cache, overlay
      ensures Valid()
      ensures overlay.State() ==
                Overlays.Stage(old(overlay.State()), p,
                  StagedFile(NewAttrFile(view, old(overlay.byPath), p,
                    ReadBack(reader, view, old(overlay.byPath), old(cache), p, broken), mode, Some(size))))
      ensures cache == CacheAfter(reader, view, old(overlay.byPath), old(cache), p, broken)
      ensures KernelResizes(reader, view, old(overlay.byPath), overlay.byPath, old(cache), p, size, mode, broken)
      ensures size == 0 ==> KernelEmpties(view, old(overlay.byPath), overlay.byPath, p, mode)
    {
      ghost var start, cached := overlay.State(), cache;
      var content := ReadBytes(p, broken);
      var bytes := if content.Some? then content.value else [];
      StageAttr(p, NewAttrFile(view, overlay.byPath, p, bytes, mode, Some(size)));
      KernelSizeResizes(reader, view, start, overlay.State(), cached, p, size, mode, broken);
    }

    /** A mode change alone. `stage_mode` asks for the bytes only after it has seen no directory. */
    method SetMode(p: Path, mode: nat, broken: set<Path>)
      requires Valid() && !Resolve(view, overlay.byPath, p).IsDir?
      modifies this`cache, overlay, inodes
      ensures Valid()
      ensures overlay.State() ==
                Overlays.Stage(old(overlay.State()), p,
                  StagedFile(FileData(ReadBack(reader, view, old(overlay.byPath), old(cache), p, broken), mode)))
      ensures cache == CacheAfter(reader, view, old(overlay.byPath), old(cache), p, broken)
      ensures inodes.State() == Interned(old(inodes.State()), p)
      ensures KernelKeeps(reader, view, old(overlay.byPath), overlay.byPath, old(cache), p, mode, broken)
    {
      ghost var start, cached := overlay.State(), cache;
      var content := ReadBytes(p, broken);
      var _ := StageMode(p, mode, if content.Some? then content.value else []);
      KernelChmodKeeps(reader, view, start, overlay.State(), cached, p, mode, broken);
    }

    /** The overlay half of a size change: the path is not interned again. */
    method StageAttr(p: Path, data: FileData)
      requires Valid()
      modifies overlay
      ensures Valid() && overlay.State() == Overlays.Stage(old(overlay.State()), p, StagedFile(data))
    {
      ghost var start := overlay.State();
      overlay.InsertFile(p, data.content, data.mode);
      StageRestages(start, p, StagedFile(data));
      StageDone(start, Op.Create(p, data), map[p := StagedFile(data)]);
    }

    /** The kernel `write`: the data spliced into what is read back, under the mode the
        file has. A failed read is an error and stages nothing. */
    method WriteAt(ino: nat, offset: int, data: Bytes, broken: set<Path>) returns (r: Reply)
      requires Valid()
      modifies this`cache, overlay
      ensures Valid()
      ensures var path := old(inodes.PathOf(ino));
              path.None? ==> r == ENoEnt && overlay.State() == old(overlay.State()) && cache == old(cache)
      ensures var path := old(inodes.PathOf(ino));
              path.Some? ==>
                var answer := Answer(reader, view, old(overlay.byPath), old(cache), path.value, broken);
                && r == (if answer.Some? then Done else EIo)
                && cache == CacheAfter(reader, view, old(overlay.byPath), old(cache), path.value, broken)
                && overlay.State() ==
                     if answer.Some?
                     then Overlays.Stage(old(overlay.State()), path.value,
                            StagedFile(FileData(Spliced(answer.value, if offset > 0 then offset else 0, data),
                                                CurrentMode(view, old(overlay.byPath), path.value, FILE_MODE))))
                     else old(overlay.State())
      ensures r == Done ==>
                KernelWrites(reader, view, old(overlay.byPath), overlay.byPath, old(inodes.PathOf(ino)).value,
                             if offset > 0 then offset else 0, data)
    {
      ghost var before, cached := overlay.State(), cache;
      match inodes.PathOf(ino) {
        case None => return ENoEnt;
        case Some(p) =>
          var content := ReadBytes(p, broken);
          if content.None? {
            return EIo;
          }
          var start: nat := if offset > 0 then offset else 0;
          StageAttr(p, FileData(Spliced(content.value, start, data), CurrentMode(view, overlay.byPath, p, FILE_MODE)));
          KernelWriteWrites(reader, view, before, overlay.State(), cached, p, start, data, broken);
          return Done;
      }
    }

    /** `rename_movers`. */
    method RenameMovers(from: Path) returns (files: seq<Path>, dirs: seq<Path>)
      ensures NoRepeats(files) && NoRepeats(dirs)
      ensures forall p :: p in files <==> IsMover(view, overlay.byPath, from, p) && Resolve(view, overlay.byPath, p).IsFile?
      ensures forall p :: p in dirs <==> IsMover(view, overlay.byPath, from, p) && Resolve(view, overlay.byPath, p).IsDir?
    {
      match Resolve(view, overlay.byPath, from) {
        case Absent => return [], [];
        case IsFile(_) => return [from], [];
        case IsDir(_) =>
          ghost var depth := LongestPath(view.Keys + overlay.byPath.Keys + {from});
          var below;
          files, below := CollectLiveEntries(view, overlay.byPath, from, depth);
          dirs := [from] + below;
          AppendNoRepeats([from], below);
      }
    }

    /** Mark every path of the list removed, and drop its inode. */
    method MarkAll(all: seq<Path>)
      requires Consistent(inodes.State())
      modifies overlay, inodes
      ensures Consistent(inodes.State())
      ensures Restaged(old(overlay.State()), overlay.State(), RemovalOf(set p | p in all))
      ensures inodes.byPath == old(inodes.byPath) - (set p | p in all)
    {
      ghost var start := overlay.State();
      ghost var done: set<Path> := {};
      RestagedNothing(start);
      OneMoreRemoval({}, []);
      assert inodes.byPath - {} == inodes.byPath;
      for i := 0 to |all|
        invariant done == Firsts(all, i)
        invariant Restaged(start, overlay.State(), RemovalOf(done))
        invariant inodes.byPath == old(inodes.byPath) - done && Consistent(inodes.State())
      {
        StageExtends(start, overlay.State(), RemovalOf(done), all[i], Removed);
        overlay.MarkRemoved(all[i]);
        ForgetOne(old(inodes.byPath), inodes.State(), done, all[i]);
        inodes.Forget(all[i]);
        OneMoreRemoval(done, all[i]);
        NextOf(all, i);
        done := done + {all[i]};
      }
      AllOf(all);
    }

    /** `stage_remove`: every live entry at and under `p` is marked removed. */
    method StageRemove(p: Path)
      requires Valid()
      modifies overlay, inodes
      ensures Valid() && StagedStep(old(overlay.State()), Op.Remove(p))
      ensures Restaged(old(overlay.State()), overlay.State(), RemovalOf(Movers(view, old(overlay.byPath), p)))
      ensures inodes.byPath == old(inodes.byPath) - Movers(view, old(overlay.byPath), p)
    {
      ghost var start, movers := overlay.State(), Movers(view, overlay.byPath, p);
      var files, dirs := RenameMovers(p);
      assert (set q | q in files + dirs) == movers;
      MarkAll(files + dirs);
      StageDone(start, Op.Remove(p), RemovalOf(movers));
    }

    /** One file of a rename: the source removed, the directories above the image
        filled in, the image staged. */
    method MoveFile(src: Path, dst: Path, data: FileData, ghost start: Log, ghost batch: map<Path, OverlayEntry>)
      requires Restaged(start, overlay.State(), batch)
      modifies overlay, inodes
      ensures Restaged(start, overlay.State(), MoveFileBatch(view, old(overlay.State()), batch, src, dst, data))
      ensures inodes.State() == Renamed(old(inodes.State()), src, dst)
    {
      StageExtends(start, overlay.State(), batch, src, Removed);
      overlay.MarkRemoved(src);
      ghost var dirs := DirMarkers(MissingDirs(view, overlay.byPath, dst));
      EnsureOverlayDirs(dst, start, batch[src := Removed]);
      StageExtends(start, overlay.State(), batch[src := Removed] + dirs, dst, StagedFile(data));
      overlay.InsertFile(dst, data.content, data.mode);
      inodes.Rename(src, dst);
    }

    /** One directory of a rename. */
    method MoveDir(src: Path, dst: Path, mode: nat, ghost start: Log, ghost batch: map<Path, OverlayEntry>)
      requires Restaged(start, overlay.State(), batch)
      modifies overlay, inodes
      ensures Restaged(start, overlay.State(), batch[src := Removed][dst := StagedDir(mode)])
      ensures inodes.State() == Renamed(old(inodes.State()), src, dst)
    {
      StageExtends(start, overlay.State(), batch, src, Removed);
      overlay.MarkRemoved(src);
      StageExtends(start, overlay.State(), batch[src := Removed], dst, StagedDir(mode));
      overlay.InsertDir(dst, mode);
      inodes.Rename(src, dst);
    }

    /** The file half of a rename's second pass. */
    method MoveFiles(from: Path, to: Path, files: seq<Path>, kept: Slots, ghost start: Log)
      returns (ghost batch: map<Path, OverlayEntry>)
      requires Disjoint(from, to) && start == overlay.State() && kept == overlay.byPath && NoRepeats(files)
      requires forall p :: p in files <==> IsMover(view, kept, from, p) && Resolve(view, kept, p).IsFile?
      requires Consistent(inodes.State())
      modifies overlay, inodes
      ensures Consistent(inodes.State())
      ensures Moving(view, kept, from, to, (set p | p in files), batch)
      ensures Restaged(start, overlay.State(), batch)
      ensures Carried(old(inodes.byPath), inodes.byPath, from, to, (set p | p in files))
    {
      batch := map[];
      ghost var done: set<Path> := {};
      RestagedNothing(start);
      for i := 0 to |files|
        invariant done == Firsts(files, i)
        invariant Moving(view, kept, from, to, done, batch)
        invariant Restaged(start, overlay.State(), batch)
        invariant Carried(old(inodes.byPath), inodes.byPath, from, to, done) && Consistent(inodes.State())
      {
        var src := files[i];
        NextOf(files, i);
        assert IsMover(view, kept, from, src) && Resolve(view, kept, src).IsFile?;
        MoverPlaces(view, kept, from, to, src);
        var data := Resolve(view, kept, src).data;
        MoveFileStep(view, start, from, to, done, batch, src, overlay.State());
        ghost var next := MoveFileBatch(view, overlay.State(), batch, src, Remap(from, to, src), data);
        CarryOne(old(inodes.byPath), inodes.State(), from, to, done, src);
        MoveFile(src, Remap(from, to, src), data, start, batch);
        batch, done := next, done + {src};
      }
      AllOf(files);
    }

    /** One directory of the second pass. */
    method MoveDirOne(from: Path, to: Path, src: Path, kept: Slots, ghost start: Log,
                      ghost done: set<Path>, ghost batch: map<Path, OverlayEntry>, ghost interned: map<Path, nat>)
      requires Disjoint(from, to) && src !in done && StartsWith(src, from)
      requires IsMover(view, kept, from, src) && Resolve(view, kept, src).IsDir?
      requires Moving(view, kept, from, to, done, batch) && Restaged(start, overlay.State(), batch)
      requires Carried(interned, inodes.byPath, from, to, done) && Consistent(inodes.State())
      modifies overlay, inodes
      ensures var next := batch[src := Removed][Remap(from, to, src) := MovedEntry(view, kept, src)];
              Moving(view, kept, from, to, done + {src}, next) && Restaged(start, overlay.State(), next)
      ensures Carried(interned, inodes.byPath, from, to, done + {src}) && Consistent(inodes.State())
    {
      var dst, mode := Remap(from, to, src), CurrentMode(view, kept, src, DIR_MODE);
      MoveDirStep(view, kept, from, to, done, batch, src);
      CarryOne(interned, inodes.State(), from, to, done, src);
      MoveDir(src, dst, mode, start, batch);
    }

    /** The directory half. */
    method MoveDirs(from: Path, to: Path, dirs: seq<Path>, kept: Slots, ghost start: Log,
                    ghost moved: set<Path>, ghost filed: map<Path, OverlayEntry>, ghost interned: map<Path, nat>)
      returns (ghost batch: map<Path, OverlayEntry>)
      requires Disjoint(from, to) && NoRepeats(dirs)
      requires forall p | p in dirs :: IsMover(view, kept, from, p) && Resolve(view, kept, p).IsDir? && p !in moved
      requires Moving(view, kept, from, to, moved, filed) && Restaged(start, overlay.State(), filed)
      requires Carried(interned, inodes.byPath, from, to, moved) && Consistent(inodes.State())
      modifies overlay, inodes
      ensures Consistent(inodes.State())
      ensures Moving(view, kept, from, to, moved + (set p | p in dirs), batch)
      ensures Restaged(start, overlay.State(), batch)
      ensures Carried(interned, inodes.byPath, from, to, moved + (set p | p in dirs))
    {
      batch := filed;
      ghost var done := moved;
      for i := 0 to |dirs|
        invariant done == moved + Firsts(dirs, i)
        invariant Moving(view, kept, from, to, done, batch)
        invariant Restaged(start, overlay.State(), batch)
        invariant Carried(interned, inodes.byPath, from, to, done) && Consistent(inodes.State())
      {
        NextOf(dirs, i);
        MoverPlaces(view, kept, from, to, dirs[i]);
        ghost var next := batch[dirs[i] := Removed][Remap(from, to, dirs[i]) := MovedEntry(view, kept, dirs[i])];
        MoveDirOne(from, to, dirs[i], kept, start, done, batch, interned);
        batch, done := next, done + {dirs[i]};
      }
      AllOf(dirs);
    }

    /** The first pass of a rename: is there a file the store must supply and cannot? */
    method AnyUnreadable(files: seq<Path>, kept: Slots, broken: set<Path>) returns (found: bool)
      ensures found <==> exists p :: p in files && p !in kept && p in broken
    {
      for i := 0 to |files|
        invariant forall j | 0 <= j < i :: !(files[j] !in kept && files[j] in broken)
      {
        if files[i] !in kept && files[i] in broken {
          assert files[i] in files;
          return true;
        }
      }
      return false;
    }

    /** The second pass: files, then directories. */
    method MoveAll(from: Path, to: Path, files: seq<Path>, dirs: seq<Path>, kept: Slots)
      returns (ghost batch: map<Path, OverlayEntry>)
      requires Disjoint(from, to) && kept == overlay.byPath && Consistent(inodes.State())
      requires NoRepeats(files) && NoRepeats(dirs)
      requires forall p :: p in files <==> IsMover(view, kept, from, p) && Resolve(view, kept, p).IsFile?
      requires forall p :: p in dirs <==> IsMover(view, kept, from, p) && Resolve(view, kept, p).IsDir?
      modifies overlay, inodes
      ensures Consistent(inodes.State())
      ensures IsRenameBatch(view, kept, from, to, batch) && Restaged(old(overlay.State()), overlay.State(), batch)
      ensures Carried(old(inodes.byPath), inodes.byPath, from, to, Movers(view, kept, from))
    {
      ghost var start, interned := overlay.State(), inodes.byPath;
      FilesAndDirs(view, kept, from, files, dirs);
      ghost var filed := MoveFiles(from, to, files, kept, start);
      batch := MoveDirs(from, to, dirs, kept, start, (set p | p in files), filed, interned);
      AllMoved(view, kept, from, to, Movers(view, kept, from), batch);
    }

    /** `stage_rename`. Every moving file is read before anything is staged, so a read
        failure leaves the overlay as it was. `broken` holds the committed paths whose
        object cannot be read. */
    method StageRename(from: Path, to: Path, broken: set<Path>) returns (ok: bool)
      requires Valid() && Disjoint(from, to)
      modifies overlay, inodes
      ensures Valid() && (ok ==> StagedStep(old(overlay.State()), Op.Rename(from, to)))
      ensures !ok <==> MovesUnreadable(view, old(overlay.byPath), from, broken)
      ensures !ok ==> overlay.State() == old(overlay.State())
      ensures ok ==> exists batch ::
                && IsRenameBatch(view, old(overlay.byPath), from, to, batch)
                && Restaged(old(overlay.State()), overlay.State(), batch)
      ensures !ok ==> inodes.State() == old(inodes.State())
      ensures ok ==> Carried(old(inodes.byPath), inodes.byPath, from, to, Movers(view, old(overlay.byPath), from))
    {
      var kept := overlay.byPath;
      var files, dirs := RenameMovers(from);
      var unreadable := AnyUnreadable(files, kept, broken);
      if unreadable {
        return false;
      }
      ghost var start := overlay.State();
      ghost var batch := MoveAll(from, to, files, dirs, kept);
      StageDone(start, Op.Rename(from, to), batch);
      return true;
    }

    // ---- kernel handlers ---------------------------------------------------------

    /** `create`. The kernel calls it for a name that does not exist in a directory. */
    method Create(p: Path, mode: nat) returns (r: Reply)
      requires Valid()
      modifies overlay, inodes
      ensures Valid() && (r == Done ==> StagedStep(old(overlay.State()), Op.Create(p, FileData([], mode))))
      ensures r == if IsEnabledMountRoot(registry, p) then EBusy else Done
      ensures overlay.State() ==
                if r == Done then Overlays.Stage(old(overlay.State()), p, StagedFile(FileData([], mode)))
                else old(overlay.State())
      ensures inodes.State() == if r == Done then Interned(old(inodes.State()), p) else old(inodes.State())
    {
      if IsEnabledMountRoot(registry, p) {
        return EBusy;
      }
      ghost var start := overlay.State();
      overlay.InsertFile(p, [], mode);
      StageRestages(start, p, StagedFile(FileData([], mode)));
      StageDone(start, Op.Create(p, FileData([], mode)), map[p := StagedFile(FileData([], mode))]);
      var _ := inodes.Intern(p);
      return Done;
    }

    method Mkdir(p: Path, mode: nat)
      requires Valid()
      modifies overlay, inodes
      ensures Valid() && StagedStep(old(overlay.State()), Op.Mkdir(p, mode))
      ensures overlay.State() == Overlays.Stage(old(overlay.State()), p, StagedDir(mode))
      ensures inodes.State() == Interned(old(inodes.State()), p)
    {
      ghost var start := overlay.State();
      overlay.InsertDir(p, mode);
      StageRestages(start, p, StagedDir(mode));
      StageDone(start, Op.Mkdir(p, mode), map[p := StagedDir(mode)]);
      var _ := inodes.Intern(p);
    }

    /** The removal of exactly one entry. */
    method RemoveOne(p: Path)
      requires Valid()
      requires Resolve(view, overlay.byPath, p).IsFile?
               || (Resolve(view, overlay.byPath, p).IsDir? && LiveChildren(view, overlay.byPath, p) == {})
      modifies overlay, inodes
      ensures Valid() && StagedStep(old(overlay.State()), Op.Remove(p))
      ensures Restaged(old(overlay.State()), overlay.State(), RemovalOf(Movers(view, old(overlay.byPath), p)))
      ensures inodes.State() == Forgotten(old(inodes.State()), p)
    {
      ghost var start := overlay.State();
      overlay.MarkRemoved(p);
      LoneRemovalIsRemove(view, start.slots, p);
      assert RemovalOf({p}) == map[p := Removed];
      StageRestages(start, p, Removed);
      StageDone(start, Op.Remove(p), RemovalOf(Movers(view, start.slots, p)));
      inodes.Forget(p);
    }

    method Unlink(p: Path) returns (r: Reply)
      requires Valid()
      modifies overlay, inodes
      ensures Valid() && (r == Done ==> StagedStep(old(overlay.State()), Op.Remove(p)))
      ensures r == if Resolve(view, old(overlay.byPath), p).IsFile? then Done else ENoEnt
      ensures r == Done ==>
                Restaged(old(overlay.State()), overlay.State(), RemovalOf(Movers(view, old(overlay.byPath), p)))
      ensures r != Done ==> overlay.State() == old(overlay.State())
      ensures inodes.State() == if r == Done then Forgotten(old(inodes.State()), p) else old(inodes.State())
    {
      if !Resolve(view, overlay.byPath, p).IsFile? {
        return ENoEnt;
      }
      RemoveOne(p);
      return Done;
    }

    /** `rmdir`: refused at a live mount root and for a directory with live children. */
    method Rmdir(p: Path) returns (r: Reply)
      requires Valid()
      modifies overlay, inodes
      ensures Valid() && (r == Done ==> StagedStep(old(overlay.State()), Op.Remove(p)))
      ensures r == if IsEnabledMountRoot(registry, p) then EBusy
                   else if !Resolve(view, old(overlay.byPath), p).IsDir? then ENoEnt
                   else if LiveChildren(view, old(overlay.byPath), p) != {} then ENotEmpty
                   else Done
      ensures r == Done ==>
                Restaged(old(overlay.State()), overlay.State(), RemovalOf(Movers(view, old(overlay.byPath), p)))
      ensures r != Done ==> overlay.State() == old(overlay.State())
      ensures inodes.State() == if r == Done then Forgotten(old(inodes.State()), p) else old(inodes.State())
    {
      if IsEnabledMountRoot(registry, p) {
        return EBusy;
      }
      if !Resolve(view, overlay.byPath, p).IsDir? {
        return ENoEnt;
      }
      var children := ReadDirEntries(view, overlay.byPath, p);
      ListingEmptyIff(view, overlay.byPath, p, children);
      if children != {} {
        return ENotEmpty;
      }
      RemoveOne(p);
      return Done;
    }

    /** `rename`. The destination may be taken unless the caller asks otherwise. */
    method Rename(from: Path, to: Path, exchange: bool, noReplace: bool, broken: set<Path>) returns (r: Reply)
      requires Valid() && Disjoint(from, to)
      modifies overlay, inodes
      ensures Valid() && (r == Done ==> StagedStep(old(overlay.State()), Op.Rename(from, to)))
      ensures r == if Resolve(view, old(overlay.byPath), from).Absent? then ENoEnt
                   else if IsEnabledMountRoot(registry, from) || IsEnabledMountRoot(registry, to) then EBusy
                   else if exchange then ENoSys
                   else if noReplace && !Resolve(view, old(overlay.byPath), to).Absent? then EExist
                   else if MovesUnreadable(view, old(overlay.byPath), from, broken) then EIo
                   else Done
      ensures r != Done ==> overlay.State() == old(overlay.State()) && inodes.State() == old(inodes.State())
      ensures r == Done ==> Carried(old(inodes.byPath), inodes.byPath, from, to, Movers(view, old(overlay.byPath), from))
    {
      if Resolve(view, overlay.byPath, from).Absent? {
        return ENoEnt;
      }
      if IsEnabledMountRoot(registry, from) || IsEnabledMountRoot(registry, to) {
        return EBusy;
      }
      if exchange {
        return ENoSys;
      }
      if noReplace && !Resolve(view, overlay.byPath, to).Absent? {
        return EExist;
      }
      var ok := StageRename(from, to, broken);
      return if ok then Done else EIo;
    }
  }

  lemma ListingEmptyIff(v: View, s: Slots, dir: Path, listed: set<(Name, bool)>)
    requires forall name, isDir :: (name, isDir) in listed <==>
               dir + [name] in LiveChildren(v, s, dir) && isDir == Resolve(v, s, dir + [name]).IsDir?
    ensures listed == {} <==> LiveChildren(v, s, dir) == {}
  {
    if c :| c in LiveChildren(v, s, dir) {
      assert c == dir + [c[|c| - 1]];
      assert (c[|c| - 1], Resolve(v, s, c).IsDir?) in listed;
    }
    if x: (Name, bool) :| x in listed {
      var (name, isDir) := x;
      assert (name, isDir) in listed;
      assert dir + [name] in LiveChildren(v, s, dir);
    }
  }
}
