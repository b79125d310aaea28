/** The mount as a state machine: staging, snapshots, landings, pulls, registry
    swaps and failed recompositions, in any order
    (crates/softfig-fuse/src/fs.rs, crates/softfig-vcs/src/repo.rs). */
module Protocol {
  import opened Paths
  import opened Trees
  import opened Chains
  import opened Views
  import opened Overlays
  import opened Live
  import opened Staging

  /** A commit under way: the snapshot carved out for one chain and the overlay
      generation it was cut at. */
  datatype Commit = Commit(part: Node, cutoff: nat)

  datatype World = World(refs: Refs, reg: Registry, view: View, log: Log, pending: map<Ref, Commit>)

  /** One staging operation. `Create` stands for every handler that stages one
      file entry (`create`, `write`, `setattr`, `stage_mode`); `unlink` and
      `rmdir` are `Remove`. */
  datatype Op =
    | Write(path: Path, content: Bytes)
    | Create(path: Path, data: FileData)
    | Mkdir(path: Path, mode: nat)
    | Remove(path: Path)
    | Rename(from: Path, to: Path)

  ghost predicate OpBatch(v: View, s: Slots, op: Op, batch: map<Path, OverlayEntry>) {
    match op
    case Write(p, content) => batch == WriteBatch(v, s, p, content)
    case Create(p, data) => batch == map[p := StagedFile(data)]
    case Mkdir(p, mode) => batch == map[p := StagedDir(mode)]
    case Remove(p) => batch == RemovalOf(Movers(v, s, p))
    case Rename(from, to) => IsRenameBatch(v, s, from, to, batch)
  }

  /** `p` is not at or above an active mount. */
  ghost predicate OffMounts(reg: Registry, p: Path) {
    forall i | ActiveAt(reg, i) :: !StartsWith(reg.shared[i].mount.value, p)
  }

  /** What keeps an operation from cutting anything off. The kernel sees to it, but for a
      rename of a directory onto one with entries, which POSIX refuses and `rename` does
      not; the daemon's verbs do not look. */
  ghost predicate OpAllowed(v: View, s: Slots, reg: Registry, op: Op) {
    match op
    case Write(p, _) => CanHoldFile(v, s, p) && OffMounts(reg, p)
    case Create(p, _) => ParentsAreDirs(v, s, p) && !Resolve(v, s, p).IsDir? && OffMounts(reg, p)
    case Mkdir(p, _) => ParentsAreDirs(v, s, p)
    case Remove(p) => p != []
    case Rename(from, to) => CanMove(v, s, from, to) && OffMounts(reg, to)
  }

  datatype Step =
    | Stage(op: Op)
    | Snapshot(chain: Chain)
    | Land(ref: Ref, composed: bool, record: bool)
    | Abandon(ref: Ref)
    | Pull(ref: Ref, tree: Node, composed: bool)
    | Swap(reg: Registry, composed: bool)

  function OwnedBy(reg: Registry, r: Ref): Path -> bool {
    p => OwningChain(reg, p).refName == r
  }

  /** The files a snapshot of this world captures. */
  function Captured(w: World, ignored: set<Name>): map<Path, FileData> {
    LiveFiles(w.view, Effective(w.log.slots, MountRoots(w.reg)), ignored)
  }

  /** The commit for `r` would advance nothing and is skipped. */
  predicate SameTree(w: World, r: Ref, tree: Node) {
    r in w.refs && w.refs[r] == tree
  }

  /** A rotation: the union is recomposed, or recomposition fails and the old view stays. */
  ghost predicate Recomposed(composed: bool, before: View, after: View, refs: Refs, reg: Registry) {
    if composed then ShowsUnion(after, refs, reg) else after == before
  }

  ghost predicate Next(w: World, step: Step, w': World, ignored: set<Name>) {
    match step
    case Stage(op) =>
      && w' == w.(log := w'.log)
      && exists batch :: OpBatch(w.view, w.log.slots, op, batch) && Restaged(w.log, w'.log, batch)
    case Snapshot(c) =>
      && c in EnabledChains(w.reg) && c.refName !in w.pending
      && exists part :: IsPart(w.reg, Captured(w, ignored), c, part)
                        && w' == w.(pending := w.pending[c.refName := Commit(part, w.log.generation)])
    case Land(r, composed, record) =>
      && r in w.pending
      && if SameTree(w, r, w.pending[r].part) && !record then w' == w.(pending := w.pending - {r})
         else
           && w' == w.(refs := w.refs[r := w.pending[r].part], pending := w.pending - {r},
                       view := w'.view, log := w'.log)
           && Recomposed(composed, w.view, w'.view, w'.refs, w.reg)
           && w'.log == (if composed then w.log.(slots := Absorbed(w.log.slots, w.pending[r].cutoff, OwnedBy(w.reg, r)))
                         else w.log)
    case Abandon(r) => w' == w.(pending := w.pending - {r})
    case Pull(r, tree, composed) =>
      && tree.Dir?
      && if SameTree(w, r, tree) then w' == w
         else
           && w' == w.(refs := w.refs[r := tree], view := w'.view)
           && Recomposed(composed, w.view, w'.view, w'.refs, w.reg)
    case Swap(reg, composed) =>
      && WellFormed(reg)
      && w' == w.(reg := reg, view := w'.view)
      && Recomposed(composed, w.view, w'.view, w.refs, reg)
  }

  // ---- the invariant ---------------------------------------------------------

  function Mask(f: Option<FileData>): Option<FileData> {
    match f
    case Some(d) => Some(Masked(d))
    case None => None
  }

  /** The file a slot stands for. */
  function SlotFile(slot: Slot): Option<FileData> {
    if slot.entry.StagedFile? then Some(Masked(slot.entry.data)) else None
  }

  /** The chain tracked by `r` has landed tree `part`: its file at working-tree path `p`. */
  function PartFile(reg: Registry, part: Node, p: Path): Option<FileData>
    requires WellFormed(reg)
  {
    OwnerPrefix(reg, p);
    Mask(FileAt(part, Strip(p, MountOf(OwningChain(reg, p)))))
  }

  ghost predicate WellComposed(w: World) {
    && WellFormed(w.reg) && TreesAreDirs(w.refs) && Stamped(w.log) && Closed(w.view)
    && MountsClear(w)
    && [] !in w.log.slots
    && (forall p | p in w.log.slots && w.log.slots[p].entry.StagedFile? :: OffMounts(w.reg, p))
  }

  /** A chain that has never committed has nothing stored under its mount. */
  ghost predicate NothingUnderUncommitted(w: World, ignored: set<Name>) {
    forall p | !Ignored(ignored, p) && OwningChain(w.reg, p).refName !in w.refs ::
      FileAt(DeviceTree(w.refs, w.reg), p).None?
  }

  /** Where nothing is staged the view shows what is committed, even after a
      recomposition failed. */
  ghost predicate ViewCurrent(w: World, ignored: set<Name>) {
    forall p | !Ignored(ignored, p) && p !in w.log.slots ::
      Mask(BlobAt(w.view, p)) == Mask(StoredFile(w.refs, w.reg, p))
  }

  /** The snapshot in flight for `r` agrees with everything it captured. */
  ghost predicate Tracks(w: World, r: Ref, ignored: set<Name>)
    requires WellFormed(w.reg) && r in w.pending
  {
    var c := w.pending[r];
    && c.part.Dir? && c.cutoff <= w.log.generation
    && (forall p | !Ignored(ignored, p) && OwningChain(w.reg, p).refName == r ::
          && (p !in w.log.slots ==> PartFile(w.reg, c.part, p) == Mask(BlobAt(w.view, p)))
          && (p in w.log.slots && w.log.slots[p].generation <= c.cutoff ==>
                PartFile(w.reg, c.part, p) == SlotFile(w.log.slots[p])))
    && (r == w.reg.device.refName ==>
          && (forall p | FileAt(c.part, p).Some? :: OwningChain(w.reg, p) == w.reg.device)
          && (forall i, k | ActiveAt(w.reg, i) && 0 <= k < |w.reg.shared[i].mount.value| ::
                FileAt(c.part, w.reg.shared[i].mount.value[..k]).None?))
  }

  ghost predicate Good(w: World, ignored: set<Name>) {
    && WellComposed(w)
    && NothingUnderUncommitted(w, ignored)
    && ViewCurrent(w, ignored)
    && Connected(w.view, w.log.slots, Files(ignored))
    && (forall r | r in w.pending :: r in RefsOf(w.reg) && Tracks(w, r, ignored))
  }

  function RefsOf(reg: Registry): set<Ref> {
    set c | c in EnabledChains(reg) :: c.refName
  }

  /** The working tree a reader and a committer see. */
  function Working(w: World, ignored: set<Name>, p: Path): Option<FileData> {
    LiveAt(w.view, w.log.slots, ignored, p)
  }

  /** Where a run starts: the view is composed, nothing is staged or in flight. */
  ghost predicate IsFreshMount(w: World, ignored: set<Name>) {
    && WellFormed(w.reg) && TreesAreDirs(w.refs) && ShowsUnion(w.view, w.refs, w.reg)
    && w.log == Log(map[], 0) && w.pending == map[]
    && MountsClear(w) && NothingUnderUncommitted(w, ignored)
  }

  /** No device file sits above an active mount. */
  ghost predicate MountsClear(w: World) {
    forall i, k | ActiveAt(w.reg, i) && 0 <= k < |w.reg.shared[i].mount.value| ::
      FileAt(DeviceTree(w.refs, w.reg), w.reg.shared[i].mount.value[..k]).None?
  }

  /** A freshly composed mount with an empty overlay is good. */
  lemma FreshMountIsGood(w: World, ignored: set<Name>)
    requires IsFreshMount(w, ignored)
    ensures Good(w, ignored)
  {
    UnionClosedIff(w.view, w.refs, w.reg);
    ClosedViewConnected(w.view);
    EverythingCoversFiles(w.view, map[], ignored);
    forall p
      ensures BlobAt(w.view, p) == StoredFile(w.refs, w.reg, p)
    {
      UnionShowsStoredFiles(w.view, w.refs, w.reg, p);
    }
  }

  // ---- staging ---------------------------------------------------------------

  lemma OpKeepsConnected(v: View, reg: Registry, a: Log, b: Log, op: Op, batch: map<Path, OverlayEntry>, scope: Scope)
    requires Connected(v, a.slots, scope) && OpAllowed(v, a.slots, reg, op)
    requires scope.Everything? && op.Rename? ==> ParentsAreDirs(v, a.slots, op.to)
    requires OpBatch(v, a.slots, op, batch) && Restaged(a, b, batch)
    ensures Connected(v, b.slots, scope)
  {
    match op
    case Write(p, content) => WriteKeepsConnected(v, a, b, p, content, scope);
    case Create(p, data) => CreateKeepsConnected(v, a, b, p, data, scope);
    case Mkdir(p, mode) => MkdirKeepsConnected(v, a, b, p, mode, scope);
    case Remove(p) => RemoveKeepsConnected(v, a, b, p, scope);
    case Rename(from, to) => RenameKeepsConnected(v, a, b, from, to, batch, scope);
  }

  // ---- runs of staging -------------------------------------------------------

  /** Operation `i` of a run over one view: allowed, and a rename goes into a directory. */
  ghost predicate OpStep(v: View, reg: Registry, logs: seq<Log>, ops: seq<Op>, i: nat) {
    && i < |ops| && i + 1 < |logs| && OpAllowed(v, logs[i].slots, reg, ops[i])
    && (ops[i].Rename? ==> ParentsAreDirs(v, logs[i].slots, ops[i].to))
    && exists batch :: OpBatch(v, logs[i].slots, ops[i], batch) && Restaged(logs[i], logs[i + 1], batch)
  }

  ghost predicate IsOps(v: View, reg: Registry, logs: seq<Log>, ops: seq<Op>) {
    && |logs| == |ops| + 1 && logs[0] == Log(map[], 0) && Closed(v)
    && forall i | 0 <= i < |ops| :: OpStep(v, reg, logs, ops, i)
  }

  lemma OpStepKeepsConnected(v: View, reg: Registry, logs: seq<Log>, ops: seq<Op>, i: nat)
    requires IsOps(v, reg, logs, ops) && i < |ops| && Connected(v, logs[i].slots, Everything)
    ensures Connected(v, logs[i + 1].slots, Everything)
  {
    assert OpStep(v, reg, logs, ops, i);
    var batch: map<Path, OverlayEntry> :| OpBatch(v, logs[i].slots, ops[i], batch) && Restaged(logs[i], logs[i + 1], batch);
    OpKeepsConnected(v, reg, logs[i], logs[i + 1], ops[i], batch, Everything);
  }

  /** Over every run of staging operations nothing at all is orphaned: no file, no
      directory and no ignored entry. */
  lemma {:induction false} OpsOrphanNothing(v: View, reg: Registry, logs: seq<Log>, ops: seq<Op>, n: nat)
    requires IsOps(v, reg, logs, ops) && n < |logs|
    ensures Connected(v, logs[n].slots, Everything)
  {
    if n == 0 {
      ClosedViewConnected(v);
    } else {
      OpsOrphanNothing(v, reg, logs, ops, n - 1);
      OpStepKeepsConnected(v, reg, logs, ops, n - 1);
    }
  }

  /** Hence whatever the view still has under a removed path is hidden itself. */
  lemma RemovedHidesBelow(v: View, reg: Registry, logs: seq<Log>, ops: seq<Op>, n: nat, p: Path, q: Path)
    requires IsOps(v, reg, logs, ops) && n < |logs|
    requires p in logs[n].slots && logs[n].slots[p].entry.Removed? && p != [] && StrictlyUnder(q, p)
    ensures Resolve(v, logs[n].slots, q).Absent?
    ensures q in v ==> q in logs[n].slots && logs[n].slots[q].entry.Removed?
  {
    OpsOrphanNothing(v, reg, logs, ops, n);
    NothingUnderNonDir(v, logs[n].slots, Everything, p);
    assert !InScope(Everything, Resolve(v, logs[n].slots, q), q);
  }

  lemma MkdirStep(v: View, reg: Registry, logs: seq<Log>, ops: seq<Op>, n: nat, mode: nat, p: Path)
    requires IsOps(v, reg, logs, ops) && n < |ops| && ops[n] == Mkdir(p, mode)
    ensures p != [] && Restaged(logs[n], logs[n + 1], map[p := StagedDir(mode)])
  {
    assert OpStep(v, reg, logs, ops, n);
  }

  /** ... and a directory made where nothing is starts empty, whatever was removed
      there before and however. */
  lemma RemadeDirIsEmpty(v: View, reg: Registry, logs: seq<Log>, ops: seq<Op>, n: nat, mode: nat, p: Path, q: Path)
    requires IsOps(v, reg, logs, ops) && n < |ops| && ops[n] == Mkdir(p, mode)
    requires Resolve(v, logs[n].slots, p).Absent?
    ensures Resolve(v, logs[n + 1].slots, p).IsDir?
    ensures StrictlyUnder(q, p) ==> Resolve(v, logs[n + 1].slots, q).Absent?
    ensures q !in LiveChildren(v, logs[n + 1].slots, p)
  {
    OpsOrphanNothing(v, reg, logs, ops, n);
    MkdirStep(v, reg, logs, ops, n, mode, p);
    if StrictlyUnder(q, p) {
      MkdirStartsEmpty(v, logs[n], logs[n + 1], p, mode, Everything, q);
      assert !InScope(Everything, Resolve(v, logs[n + 1].slots, q), q);
    }
    assert IsParentOf(p, q) ==> StrictlyUnder(q, p);
  }

  lemma OpStaysOffMounts(v: View, s: Slots, reg: Registry, op: Op, batch: map<Path, OverlayEntry>, p: Path)
    requires OpAllowed(v, s, reg, op) && OpBatch(v, s, op, batch) && p in batch
    ensures p != []
    ensures batch[p].StagedFile? ==> OffMounts(reg, p)
  {
    match op
    case Rename(from, to) =>
      assert RenameEntry(v, s, from, to, p) == Some(batch[p]);
      if StartsWith(p, to) {
        forall i | ActiveAt(reg, i)
          ensures !StartsWith(reg.shared[i].mount.value, p)
        {
          if StartsWith(reg.shared[i].mount.value, p) {
            PrefixTransitive(reg.shared[i].mount.value, p, to);
          }
        }
      }
    case _ =>
  }

  /** Staging keeps the world good: what was captured is untouched, what is new is newer. */
  lemma StageKeepsGood(w: World, op: Op, w': World, ignored: set<Name>)
    requires Good(w, ignored) && OpAllowed(w.view, w.log.slots, w.reg, op)
    requires Next(w, Stage(op), w', ignored)
    ensures Good(w', ignored)
  {
    var batch: map<Path, OverlayEntry> :| OpBatch(w.view, w.log.slots, op, batch) && Restaged(w.log, w'.log, batch);
    OpKeepsConnected(w.view, w.reg, w.log, w'.log, op, batch, Files(ignored));
    RestagedStamped(w.log, w'.log, batch);
    forall p | p in batch
      ensures p != [] && (batch[p].StagedFile? ==> OffMounts(w.reg, p))
    {
      OpStaysOffMounts(w.view, w.log.slots, w.reg, op, batch, p);
    }
    forall r | r in w'.pending
      ensures r in RefsOf(w'.reg) && Tracks(w', r, ignored)
    {
      assert Tracks(w, r, ignored);
    }
  }

  // ---- snapshots -------------------------------------------------------------

  lemma SameRefSameChain(reg: Registry, a: Chain, b: Chain)
    requires WellFormed(reg) && a in EnabledChains(reg) && b in EnabledChains(reg) && a.refName == b.refName
    ensures a == b
  {
    EnabledChainsDistinct(reg);
  }

  /** A good world's resolved file at a path, slot by slot. */
  lemma ResolvedBySlot(w: World, ignored: set<Name>, p: Path)
    requires WellComposed(w)
    ensures ResolvedFile(w.view, w.log.slots, ignored, p) ==
            if Ignored(ignored, p) then None
            else if p in w.log.slots then SlotFile(w.log.slots[p])
            else Mask(BlobAt(w.view, p))
  {
    assert DirIn(w.view, []);
  }

  lemma WorkingBySlot(w: World, ignored: set<Name>, p: Path)
    requires WellComposed(w) && Connected(w.view, w.log.slots, Files(ignored))
    ensures Working(w, ignored, p) ==
            if Ignored(ignored, p) then None
            else if p in w.log.slots then SlotFile(w.log.slots[p])
            else Mask(BlobAt(w.view, p))
  {
    ConnectedIffLiveIsResolved(w.view, w.log.slots, ignored);
    ResolvedBySlot(w, ignored, p);
  }

  /** With no file staged at a mount, a snapshot captures the working tree as it is. */
  lemma CapturedIsWorking(w: World, ignored: set<Name>, p: Path)
    requires WellComposed(w)
    ensures Working(w, ignored, p) == if p in Captured(w, ignored) then Some(Captured(w, ignored)[p]) else None
  {
    var roots := MountRoots(w.reg);
    forall q | q in w.log.slots && w.log.slots[q].entry.StagedFile?
      ensures q !in roots
    {
    }
    assert Effective(w.log.slots, roots) == w.log.slots;
    assert LiveAt(w.view, Effective(w.log.slots, roots), ignored, p)
        == if p in Captured(w, ignored) then Some(Captured(w, ignored)[p]) else None;
  }

  /** Nothing is stored exactly at a mount root. */
  lemma NoFileAtMount(w: World, ignored: set<Name>, p: Path)
    requires Good(w, ignored) && !Ignored(ignored, p) && p == MountOf(OwningChain(w.reg, p))
    ensures p in w.log.slots ==> SlotFile(w.log.slots[p]) == None
    ensures p !in w.log.slots ==> BlobAt(w.view, p) == None
  {
    var best := BestClaim(w.reg, p, |w.reg.shared|);
    if best.None? {
      assert DirIn(w.view, []);
    } else {
      assert ActiveAt(w.reg, best.value) && StartsWith(w.reg.shared[best.value].mount.value, p);
      if p !in w.log.slots {
        assert Mask(BlobAt(w.view, p)) == Mask(StoredFile(w.refs, w.reg, p));
        assert Strip(p, w.reg.shared[best.value].mount.value) == [];
      }
    }
  }

  /** A part, read back at a working-tree path its chain owns. */
  lemma PartFileOfPart(reg: Registry, files: map<Path, FileData>, part: Node, p: Path)
    requires WellFormed(reg) && IsPart(reg, files, OwningChain(reg, p), part)
    ensures PartFile(reg, part, p) ==
            if p != MountOf(OwningChain(reg, p)) && p in files then Some(Masked(files[p])) else None
  {
    OwnerPrefix(reg, p);
    var c := OwningChain(reg, p);
    var q := Strip(p, MountOf(c));
    assert FileAt(part, q) == PartFileAt(reg, files, c, q);
    assert q == [] <==> p == MountOf(c);
  }

  lemma FreshPartAgrees(w: World, ignored: set<Name>, part: Node, p: Path)
    requires WellComposed(w)
    requires IsPart(w.reg, Captured(w, ignored), OwningChain(w.reg, p), part)
    requires p == MountOf(OwningChain(w.reg, p)) ==> Working(w, ignored, p) == None
    ensures PartFile(w.reg, part, p) == Working(w, ignored, p)
  {
    PartFileOfPart(w.reg, Captured(w, ignored), part, p);
    CapturedIsWorking(w, ignored, p);
  }

  lemma FreshDevicePart(w: World, ignored: set<Name>, part: Node)
    requires Good(w, ignored) && IsPart(w.reg, Captured(w, ignored), w.reg.device, part)
    ensures forall p | FileAt(part, p).Some? :: OwningChain(w.reg, p) == w.reg.device
    ensures forall i, k | ActiveAt(w.reg, i) && 0 <= k < |w.reg.shared[i].mount.value| ::
              FileAt(part, w.reg.shared[i].mount.value[..k]).None?
  {
    forall p | FileAt(part, p).Some?
      ensures OwningChain(w.reg, p) == w.reg.device && p in Captured(w, ignored)
    {
      assert FileAt(part, p) == PartFileAt(w.reg, Captured(w, ignored), w.reg.device, p);
      assert MountOf(w.reg.device) + p == p;
    }
    forall i, k | ActiveAt(w.reg, i) && 0 <= k < |w.reg.shared[i].mount.value|
      ensures FileAt(part, w.reg.shared[i].mount.value[..k]).None?
    {
      var mount := w.reg.shared[i].mount.value;
      var a := mount[..k];
      CapturedIsWorking(w, ignored, a);
      WorkingBySlot(w, ignored, a);
      AboveMountIsUnderlay(w.refs, w.reg, i, a);
      assert StartsWith(mount, a) && !OffMounts(w.reg, a);
      assert BestClaim(w.reg, a, |w.reg.shared|).None?;
      if !Ignored(ignored, a) && a !in w.log.slots {
        assert Mask(BlobAt(w.view, a)) == Mask(StoredFile(w.refs, w.reg, a));
      }
    }
  }

  /** A snapshot starts out agreeing with everything, and changes nothing. */
  lemma SnapshotKeepsGood(w: World, c: Chain, w': World, ignored: set<Name>)
    requires Good(w, ignored) && Next(w, Snapshot(c), w', ignored)
    ensures Good(w', ignored)
    ensures forall p :: Working(w', ignored, p) == Working(w, ignored, p)
  {
    var part := w'.pending[c.refName].part;
    assert IsPart(w.reg, Captured(w, ignored), c, part);
    forall r | r in w'.pending
      ensures r in RefsOf(w'.reg) && Tracks(w', r, ignored)
    {
      if r != c.refName {
        assert Tracks(w, r, ignored);
      } else {
        EnabledChainsDistinct(w.reg);
        forall p | !Ignored(ignored, p) && OwningChain(w.reg, p).refName == r
          ensures PartFile(w.reg, part, p) ==
                  if p in w.log.slots then SlotFile(w.log.slots[p]) else Mask(BlobAt(w.view, p))
        {
          SameRefSameChain(w.reg, c, OwningChain(w.reg, p));
          WorkingBySlot(w, ignored, p);
          if p == MountOf(c) {
            NoFileAtMount(w, ignored, p);
          }
          FreshPartAgrees(w, ignored, part, p);
        }
        if r == w.reg.device.refName {
          SameRefSameChain(w.reg, c, w.reg.device);
          FreshDevicePart(w, ignored, part);
        }
      }
    }
  }

  // ---- landing ---------------------------------------------------------------

  /** What is stored once the snapshot for `r` has landed. */
  lemma StoredAfterLanding(w: World, r: Ref, ignored: set<Name>, p: Path)
    requires Good(w, ignored) && r in w.pending && !Ignored(ignored, p)
    ensures Mask(StoredFile(w.refs[r := w.pending[r].part], w.reg, p)) ==
            if OwningChain(w.reg, p).refName == r then PartFile(w.reg, w.pending[r].part, p)
            else Mask(StoredFile(w.refs, w.reg, p))
    ensures OwningChain(w.reg, p).refName !in w.refs[r := w.pending[r].part] ==>
              FileAt(DeviceTree(w.refs[r := w.pending[r].part], w.reg), p).None?
  {
    assert Tracks(w, r, ignored);
    var best := BestClaim(w.reg, p, |w.reg.shared|);
    OwnerPrefix(w.reg, p);
    if best.None? {
      assert Strip(p, []) == p;
    } else {
      assert OwningChain(w.reg, p) == w.reg.shared[best.value];
    }
  }

  /** Landing never changes what a non-ignored path resolves to. */
  lemma LandingKeepsResolved(w: World, r: Ref, record: bool, w': World, ignored: set<Name>, p: Path)
    requires Good(w, ignored) && Next(w, Land(r, true, record), w', ignored) && WellComposed(w')
    ensures ResolvedFile(w'.view, w'.log.slots, ignored, p) == ResolvedFile(w.view, w.log.slots, ignored, p)
  {
    ResolvedBySlot(w, ignored, p);
    ResolvedBySlot(w', ignored, p);
    if w'.log != w.log || w'.view != w.view {
      if !Ignored(ignored, p) && p !in w'.log.slots {
        UnionShowsStoredFiles(w'.view, w'.refs, w.reg, p);
        StoredAfterLanding(w, r, ignored, p);
        assert Tracks(w, r, ignored);
        if p in w.log.slots {
          assert !Uncaptured(w.log.slots, w.pending[r].cutoff, OwnedBy(w.reg, r), p);
        }
      }
    }
  }

  /** Every surviving file still has directories above it: where the overlay holds
      no entry, the trees about to be composed must have one. */
  ghost predicate Sheltered(w: World, r: Ref, ignored: set<Name>)
    requires r in w.pending
  {
    forall p, k | p in w.log.slots && w.log.slots[p].entry.StagedFile? && !Ignored(ignored, p)
        && Uncaptured(w.log.slots, w.pending[r].cutoff, OwnedBy(w.reg, r), p)
        && 0 < k < |p| && p[..k] !in w.log.slots ::
      UnionEntry(w.refs[r := w.pending[r].part], w.reg, p[..k]) == Some(DirEntry(DIR_MODE))
  }

  lemma LandedViewClosed(w: World, r: Ref, v: View, ignored: set<Name>)
    requires Good(w, ignored) && r in w.pending
    requires ShowsUnion(v, w.refs[r := w.pending[r].part], w.reg)
    ensures TreesAreDirs(w.refs[r := w.pending[r].part]) && Closed(v)
    ensures forall i, k | ActiveAt(w.reg, i) && 0 <= k < |w.reg.shared[i].mount.value| ::
              FileAt(DeviceTree(w.refs[r := w.pending[r].part], w.reg), w.reg.shared[i].mount.value[..k]).None?
  {
    assert Tracks(w, r, ignored);
    UnionClosedIff(v, w.refs[r := w.pending[r].part], w.reg);
  }

  /** A landing that did advance its ref and recompose. */
  ghost predicate LandsAndRotates(w: World, r: Ref, record: bool, w': World, ignored: set<Name>) {
    Next(w, Land(r, true, record), w', ignored) && (record || !SameTree(w, r, w.pending[r].part))
  }

  lemma RotationStaysComposed(w: World, r: Ref, record: bool, w': World, ignored: set<Name>)
    requires Good(w, ignored) && LandsAndRotates(w, r, record, w', ignored)
    ensures WellComposed(w')
  {
    LandedViewClosed(w, r, w'.view, ignored);
  }

  /** A directory marker above a surviving file survives with it. */
  lemma AbsorbedSlotAbove(s: Slots, cutoff: nat, owned: Path -> bool, p: Path, k: nat)
    requires p in s && s[p].entry.StagedFile? && Uncaptured(s, cutoff, owned, p)
    requires k < |p| && p[..k] in s && s[p[..k]].entry.StagedDir?
    ensures p[..k] in Absorbed(s, cutoff, owned)
  {
    assert StrictlyUnder(p, p[..k]);
  }

  /** The overlay as the landing of `r` leaves it. */
  ghost function Remaining(w: World, r: Ref): Slots
    requires r in w.pending
  {
    Absorbed(w.log.slots, w.pending[r].cutoff, OwnedBy(w.reg, r))
  }

  lemma ConnectedImpliesSheltered(w: World, r: Ref, v: View, ignored: set<Name>)
    requires r in w.pending && ShowsUnion(v, w.refs[r := w.pending[r].part], w.reg)
    requires Connected(v, Remaining(w, r), Files(ignored))
    ensures Sheltered(w, r, ignored)
  {
    forall p, k | p in w.log.slots && w.log.slots[p].entry.StagedFile? && !Ignored(ignored, p)
        && Uncaptured(w.log.slots, w.pending[r].cutoff, OwnedBy(w.reg, r), p)
        && 0 < k < |p| && p[..k] !in w.log.slots
      ensures UnionEntry(w.refs[r := w.pending[r].part], w.reg, p[..k]) == Some(DirEntry(DIR_MODE))
    {
      assert InScope(Files(ignored), Resolve(v, Remaining(w, r), p), p);
      assert Resolve(v, Remaining(w, r), p[..k]).IsDir?;
      assert Lookup(v, p[..k]) == UnionEntry(w.refs[r := w.pending[r].part], w.reg, p[..k]);
      UnionDirMode(w.refs[r := w.pending[r].part], w.reg, p[..k]);
    }
  }

  lemma UnionDirMode(refs: Refs, reg: Registry, p: Path)
    ensures UnionEntry(refs, reg, p).Some? && UnionEntry(refs, reg, p).value.DirEntry? ==>
              UnionEntry(refs, reg, p) == Some(DirEntry(DIR_MODE))
  {
  }

  lemma ShelteredParent(w: World, r: Ref, v: View, ignored: set<Name>, p: Path, k: nat)
    requires r in w.pending && ShowsUnion(v, w.refs[r := w.pending[r].part], w.reg) && Closed(v)
    requires Connected(w.view, w.log.slots, Files(ignored)) && Sheltered(w, r, ignored)
    requires InScope(Files(ignored), Resolve(v, Remaining(w, r), p), p) && 0 < k < |p|
    requires InScope(Files(ignored), Resolve(w.view, w.log.slots, p), p)
    ensures Resolve(v, Remaining(w, r), p[..k]).IsDir?
  {
    var a := p[..k];
    assert Resolve(w.view, w.log.slots, a).IsDir?;
    if a !in Remaining(w, r) {
      if p !in Remaining(w, r) {
        assert DirIn(v, a);
      } else if a in w.log.slots {
        AbsorbedSlotAbove(w.log.slots, w.pending[r].cutoff, OwnedBy(w.reg, r), p, k);
      } else {
        assert UnionEntry(w.refs[r := w.pending[r].part], w.reg, a) == Some(DirEntry(DIR_MODE));
        assert Lookup(v, a) == UnionEntry(w.refs[r := w.pending[r].part], w.reg, a);
      }
    }
  }

  /** After a rotation no file is orphaned exactly when the landing was sheltered. */
  lemma RotationConnectedIff(w: World, r: Ref, record: bool, w': World, ignored: set<Name>)
    requires Good(w, ignored) && LandsAndRotates(w, r, record, w', ignored)
    ensures Connected(w'.view, w'.log.slots, Files(ignored)) <==> Sheltered(w, r, ignored)
  {
    RotationStaysComposed(w, r, record, w', ignored);
    if Connected(w'.view, w'.log.slots, Files(ignored)) {
      ConnectedImpliesSheltered(w, r, w'.view, ignored);
    }
    if Sheltered(w, r, ignored) {
      forall p, k | InScope(Files(ignored), Resolve(w'.view, w'.log.slots, p), p) && 0 < k < |p|
        ensures Resolve(w'.view, w'.log.slots, p[..k]).IsDir?
      {
        LandingKeepsResolved(w, r, record, w', ignored, p);
        ShelteredParent(w, r, w'.view, ignored, p, k);
      }
    }
  }

  /** Landing is invisible: when a commit lands and the view rotates, the working
      tree is unchanged exactly when every surviving staged file keeps directories
      above it. */
  lemma LandingInvisibleIff(w: World, r: Ref, record: bool, w': World, ignored: set<Name>)
    requires Good(w, ignored) && LandsAndRotates(w, r, record, w', ignored)
    ensures (forall p :: Working(w', ignored, p) == Working(w, ignored, p)) <==> Sheltered(w, r, ignored)
  {
    RotationStaysComposed(w, r, record, w', ignored);
    RotationConnectedIff(w, r, record, w', ignored);
    ConnectedIffLiveIsResolved(w.view, w.log.slots, ignored);
    ConnectedIffLiveIsResolved(w'.view, w'.log.slots, ignored);
    forall p
      ensures Working(w, ignored, p) == ResolvedFile(w'.view, w'.log.slots, ignored, p)
    {
      LandingKeepsResolved(w, r, record, w', ignored, p);
    }
  }

  /** What the composed view shows where nothing is staged, after the rotation. */
  lemma RotatedBlob(w: World, r: Ref, v: View, ignored: set<Name>, p: Path)
    requires Good(w, ignored) && r in w.pending && !Ignored(ignored, p)
    requires ShowsUnion(v, w.refs[r := w.pending[r].part], w.reg)
    ensures Mask(BlobAt(v, p)) ==
            if OwningChain(w.reg, p).refName == r then PartFile(w.reg, w.pending[r].part, p)
            else Mask(StoredFile(w.refs, w.reg, p))
  {
    UnionShowsStoredFiles(v, w.refs[r := w.pending[r].part], w.reg, p);
    StoredAfterLanding(w, r, ignored, p);
  }

  /** Where another chain's landing leaves nothing staged, the view shows what it did. */
  lemma RotationKeepsUnstaged(w: World, r: Ref, record: bool, w': World, ignored: set<Name>, other: Ref, p: Path)
    requires Good(w, ignored) && LandsAndRotates(w, r, record, w', ignored)
    requires other != r && !Ignored(ignored, p) && OwningChain(w.reg, p).refName == other && p !in w'.log.slots
    ensures p !in w.log.slots && BlobAtMask(w'.view, p) == BlobAtMask(w.view, p)
  {
    assert p in w.log.slots ==> Uncaptured(w.log.slots, w.pending[r].cutoff, OwnedBy(w.reg, r), p);
    RotatedBlob(w, r, w'.view, ignored, p);
  }

  lemma RotationKeepsTracking(w: World, r: Ref, record: bool, w': World, ignored: set<Name>, other: Ref)
    requires Good(w, ignored) && LandsAndRotates(w, r, record, w', ignored)
    requires other in w.pending && other != r
    ensures Tracks(w', other, ignored)
  {
    assert Tracks(w, other, ignored);
    forall p | !Ignored(ignored, p) && OwningChain(w.reg, p).refName == other && p !in w'.log.slots
      ensures p !in w.log.slots && BlobAtMask(w'.view, p) == BlobAtMask(w.view, p)
    {
      RotationKeepsUnstaged(w, r, record, w', ignored, other, p);
    }
  }

  function BlobAtMask(v: View, p: Path): Option<FileData> {
    Mask(BlobAt(v, p))
  }

  /** A sheltered landing leaves the world good. */
  lemma RotationKeepsGood(w: World, r: Ref, record: bool, w': World, ignored: set<Name>)
    requires Good(w, ignored) && LandsAndRotates(w, r, record, w', ignored)
    requires Sheltered(w, r, ignored)
    ensures Good(w', ignored)
  {
    RotationStaysComposed(w, r, record, w', ignored);
    RotationConnectedIff(w, r, record, w', ignored);
    forall p | !Ignored(ignored, p)
      ensures OwningChain(w'.reg, p).refName !in w'.refs ==> FileAt(DeviceTree(w'.refs, w'.reg), p).None?
      ensures BlobAt(w'.view, p) == StoredFile(w'.refs, w'.reg, p)
    {
      StoredAfterLanding(w, r, ignored, p);
      UnionShowsStoredFiles(w'.view, w'.refs, w.reg, p);
    }
    forall other | other in w'.pending
      ensures other in RefsOf(w'.reg) && Tracks(w', other, ignored)
    {
      RotationKeepsTracking(w, r, record, w', ignored, other);
    }
  }

  /** When recomposition fails, or the commit advances nothing, the landing leaves
      the working tree as it was and the world good: a later rotation catches up. */
  lemma StalledLandingKeepsGood(w: World, r: Ref, composed: bool, record: bool, w': World, ignored: set<Name>)
    requires Good(w, ignored) && Next(w, Land(r, composed, record), w', ignored)
    requires !composed || (SameTree(w, r, w.pending[r].part) && !record)
    ensures Good(w', ignored)
    ensures forall p :: Working(w', ignored, p) == Working(w, ignored, p)
  {
    assert Tracks(w, r, ignored);
    if w'.refs != w.refs {
      forall p | !Ignored(ignored, p)
        ensures OwningChain(w'.reg, p).refName !in w'.refs ==> FileAt(DeviceTree(w'.refs, w'.reg), p).None?
        ensures p !in w'.log.slots ==> Mask(BlobAt(w'.view, p)) == Mask(StoredFile(w'.refs, w'.reg, p))
      {
        StoredAfterLanding(w, r, ignored, p);
      }
    }
    forall other | other in w'.pending
      ensures other in RefsOf(w'.reg) && Tracks(w', other, ignored)
    {
      assert Tracks(w, other, ignored);
    }
  }

  // ---- pulls and registry swaps ------------------------------------------------

  /** Files stay whole under a new composition: above a staged file the trees have a
      directory wherever the overlay has no entry, and above a stored file the overlay
      has nothing but markers. */
  ghost predicate ShelteredUnder(w: World, refs: Refs, reg: Registry, ignored: set<Name>) {
    && (forall p, k | p in w.log.slots && w.log.slots[p].entry.StagedFile? && !Ignored(ignored, p)
           && 0 < k < |p| && p[..k] !in w.log.slots ::
         UnionEntry(refs, reg, p[..k]) == Some(DirEntry(DIR_MODE)))
    && (forall p, k | p !in w.log.slots && !Ignored(ignored, p) && StoredFile(refs, reg, p).Some?
           && 0 < k < |p| && p[..k] in w.log.slots ::
         w.log.slots[p[..k]].entry.StagedDir?)
  }

  /** A recomposition over the same overlay cuts no file off exactly then. */
  lemma RecomposedConnectedIff(w: World, refs: Refs, reg: Registry, v: View, ignored: set<Name>)
    requires WellComposed(w) && Connected(w.view, w.log.slots, Files(ignored))
    requires ShowsUnion(v, refs, reg) && Closed(v)
    ensures Connected(v, w.log.slots, Files(ignored)) <==> ShelteredUnder(w, refs, reg, ignored)
  {
    var s := w.log.slots;
    forall p, k | 0 < k < |p| && InScope(Files(ignored), Resolve(v, s, p), p)
      ensures Resolve(v, s, p[..k]).IsDir? <==> KeepsDirAbove(w, refs, reg, p, k)
    {
      var a := p[..k];
      UnionShowsStoredFiles(v, refs, reg, p);
      assert Lookup(v, a) == UnionEntry(refs, reg, a);
      UnionDirMode(refs, reg, a);
      if p !in s {
        assert DirIn(v, a);
      } else if a in s {
        assert InScope(Files(ignored), Resolve(w.view, s, p), p);
        assert Resolve(w.view, s, a).IsDir?;
      }
    }
    ShelteredPointwise(w, refs, reg, v, ignored);
  }

  ghost predicate KeepsDirAbove(w: World, refs: Refs, reg: Registry, p: Path, k: nat)
    requires k < |p|
  {
    if p in w.log.slots then p[..k] in w.log.slots || UnionEntry(refs, reg, p[..k]) == Some(DirEntry(DIR_MODE))
    else p[..k] in w.log.slots ==> w.log.slots[p[..k]].entry.StagedDir?
  }

  lemma ShelteredPointwise(w: World, refs: Refs, reg: Registry, v: View, ignored: set<Name>)
    requires ShowsUnion(v, refs, reg)
    ensures ShelteredUnder(w, refs, reg, ignored) <==>
            forall p, k | 0 < k < |p| && InScope(Files(ignored), Resolve(v, w.log.slots, p), p) ::
              KeepsDirAbove(w, refs, reg, p, k)
  {
    var s := w.log.slots;
    forall p
      ensures InScope(Files(ignored), Resolve(v, s, p), p) <==>
              p != [] && !Ignored(ignored, p)
              && if p in s then s[p].entry.StagedFile? else StoredFile(refs, reg, p).Some?
    {
      UnionShowsStoredFiles(v, refs, reg, p);
    }
    if ShelteredUnder(w, refs, reg, ignored) {
      forall p, k | 0 < k < |p| && InScope(Files(ignored), Resolve(v, s, p), p)
        ensures KeepsDirAbove(w, refs, reg, p, k)
      {
      }
    }
    if forall p, k | 0 < k < |p| && InScope(Files(ignored), Resolve(v, s, p), p) :: KeepsDirAbove(w, refs, reg, p, k) {
      forall p, k | p in s && s[p].entry.StagedFile? && !Ignored(ignored, p) && 0 < k < |p| && p[..k] !in s
        ensures UnionEntry(refs, reg, p[..k]) == Some(DirEntry(DIR_MODE))
      {
        assert KeepsDirAbove(w, refs, reg, p, k);
      }
      forall p, k | p !in s && !Ignored(ignored, p) && StoredFile(refs, reg, p).Some? && 0 < k < |p| && p[..k] in s
        ensures s[p[..k]].entry.StagedDir?
      {
        assert KeepsDirAbove(w, refs, reg, p, k);
      }
    }
  }

  /** What a pull or a swap must find: the new composition has no device file above a
      mount, stores nothing under a chain without a commit, and cuts no file off. */
  ghost predicate Composable(w: World, refs: Refs, reg: Registry, ignored: set<Name>) {
    var w' := w.(refs := refs, reg := reg);
    MountsClear(w') && NothingUnderUncommitted(w', ignored) && ShelteredUnder(w, refs, reg, ignored)
  }

  /** A committed chain stores a path it owns in its own tree, under the stripped name. */
  lemma StoredByOwner(refs: Refs, reg: Registry, p: Path)
    requires WellFormed(reg) && OwningChain(reg, p).refName in refs
    ensures StartsWith(p, MountOf(OwningChain(reg, p)))
    ensures StoredFile(refs, reg, p) == FileAt(refs[OwningChain(reg, p).refName], Strip(p, MountOf(OwningChain(reg, p))))
  {
    OwnerPrefix(reg, p);
    if BestClaim(reg, p, |reg.shared|).None? {
      assert Strip(p, []) == p;
    }
  }

  lemma StoredByNobody(w: World, ignored: set<Name>, p: Path)
    requires NothingUnderUncommitted(w, ignored) && !Ignored(ignored, p)
    requires OwningChain(w.reg, p).refName !in w.refs
    ensures StoredFile(w.refs, w.reg, p) == None
  {
  }

  /** Another ref's pull leaves what this path stores. */
  lemma PullStoresElsewhere(w: World, r: Ref, tree: Node, w': World, ignored: set<Name>, p: Path)
    requires WellFormed(w.reg) && w'.reg == w.reg && w'.refs == w.refs[r := tree]
    requires NothingUnderUncommitted(w, ignored) && NothingUnderUncommitted(w', ignored)
    requires !Ignored(ignored, p) && OwningChain(w.reg, p).refName != r
    ensures StoredFile(w'.refs, w.reg, p) == StoredFile(w.refs, w.reg, p)
  {
    if OwningChain(w.reg, p).refName in w.refs {
      StoredByOwner(w.refs, w.reg, p);
      StoredByOwner(w'.refs, w.reg, p);
    } else {
      StoredByNobody(w, ignored, p);
      StoredByNobody(w', ignored, p);
    }
  }

  /** A pull of a chain with no commit in flight keeps the world good, and only the
      unstaged files of its own chain can look different. */
  lemma PullKeepsGood(w: World, r: Ref, tree: Node, w': World, ignored: set<Name>)
    requires Good(w, ignored) && Next(w, Pull(r, tree, true), w', ignored)
    requires r !in w.pending && (SameTree(w, r, tree) || Composable(w, w.refs[r := tree], w.reg, ignored))
    ensures Good(w', ignored)
    ensures forall p | p in w.log.slots || OwningChain(w.reg, p).refName != r ::
              Working(w', ignored, p) == Working(w, ignored, p)
  {
    if !SameTree(w, r, tree) {
      UnionClosedIff(w'.view, w'.refs, w.reg);
      RecomposedConnectedIff(w, w'.refs, w.reg, w'.view, ignored);
      assert NothingUnderUncommitted(w', ignored);
      forall p | !Ignored(ignored, p)
        ensures BlobAt(w'.view, p) == StoredFile(w'.refs, w.reg, p)
        ensures OwningChain(w.reg, p).refName != r ==> StoredFile(w'.refs, w.reg, p) == StoredFile(w.refs, w.reg, p)
      {
        UnionShowsStoredFiles(w'.view, w'.refs, w.reg, p);
        if OwningChain(w.reg, p).refName != r {
          PullStoresElsewhere(w, r, tree, w', ignored, p);
        }
      }
      forall other | other in w'.pending
        ensures other in RefsOf(w'.reg) && Tracks(w', other, ignored)
      {
        assert Tracks(w, other, ignored);
      }
      forall p | p in w.log.slots || OwningChain(w.reg, p).refName != r
        ensures Working(w', ignored, p) == Working(w, ignored, p)
      {
        WorkingBySlot(w, ignored, p);
        WorkingBySlot(w', ignored, p);
      }
    }
  }

  /** The two registries give the chain tracked by `r` the same paths under the same mount. */
  ghost predicate SameShare(a: Registry, b: Registry, r: Ref) {
    forall p | OwningChain(a, p).refName == r || OwningChain(b, p).refName == r :: OwningChain(a, p) == OwningChain(b, p)
  }

  /** A swap touches no commit in flight and puts no mount at or under a staged file. */
  ghost predicate SwapFits(w: World, reg: Registry) {
    && (forall p | p in w.log.slots && w.log.slots[p].entry.StagedFile? :: OffMounts(reg, p))
    && (forall r | r in w.pending ::
          && r in RefsOf(reg) && SameShare(w.reg, reg, r)
          && (r == reg.device.refName ==>
                && reg.device == w.reg.device
                && forall i, k | ActiveAt(reg, i) && 0 <= k < |reg.shared[i].mount.value| ::
                     FileAt(w.pending[r].part, reg.shared[i].mount.value[..k]).None?))
  }

  lemma SwapKeepsTracking(w: World, reg: Registry, w': World, ignored: set<Name>, r: Ref)
    requires Good(w, ignored) && Next(w, Swap(reg, true), w', ignored)
    requires SwapFits(w, reg) && NothingUnderUncommitted(w', ignored) && r in w.pending
    ensures Tracks(w', r, ignored)
  {
    assert Tracks(w, r, ignored) && SameShare(w.reg, reg, r);
    forall p | !Ignored(ignored, p) && OwningChain(reg, p).refName == r
      ensures OwningChain(w.reg, p) == OwningChain(reg, p)
      ensures p !in w.log.slots ==> BlobAtMask(w'.view, p) == BlobAtMask(w.view, p)
    {
      UnionShowsStoredFiles(w'.view, w.refs, reg, p);
      if r in w.refs {
        StoredByOwner(w.refs, reg, p);
        StoredByOwner(w.refs, w.reg, p);
      } else {
        StoredByNobody(w, ignored, p);
        StoredByNobody(w', ignored, p);
      }
    }
  }

  /** A registry swap that fits keeps the world good, and only unstaged files that
      another chain stores now can look different. */
  lemma SwapKeepsGood(w: World, reg: Registry, w': World, ignored: set<Name>)
    requires Good(w, ignored) && Next(w, Swap(reg, true), w', ignored)
    requires SwapFits(w, reg) && Composable(w, w.refs, reg, ignored)
    ensures Good(w', ignored)
    ensures forall p | p in w.log.slots || StoredFile(w.refs, reg, p) == StoredFile(w.refs, w.reg, p) ::
              Working(w', ignored, p) == Working(w, ignored, p)
  {
    UnionClosedIff(w'.view, w.refs, reg);
    RecomposedConnectedIff(w, w.refs, reg, w'.view, ignored);
    assert NothingUnderUncommitted(w', ignored);
    forall p
      ensures BlobAt(w'.view, p) == StoredFile(w.refs, reg, p)
    {
      UnionShowsStoredFiles(w'.view, w.refs, reg, p);
    }
    forall r | r in w'.pending
      ensures r in RefsOf(w'.reg) && Tracks(w', r, ignored)
    {
      SwapKeepsTracking(w, reg, w', ignored, r);
    }
    forall p | p in w.log.slots || StoredFile(w.refs, reg, p) == StoredFile(w.refs, w.reg, p)
      ensures Working(w', ignored, p) == Working(w, ignored, p)
    {
      WorkingBySlot(w, ignored, p);
      WorkingBySlot(w', ignored, p);
    }
  }

  // ---- whole runs ------------------------------------------------------------

  datatype Run = Run(worlds: seq<World>, steps: seq<Step>)

  ghost predicate IsRun(run: Run, ignored: set<Name>) {
    && |run.worlds| == |run.steps| + 1
    && forall i | 0 <= i < |run.steps| :: RunStep(run, i, ignored)
  }

  ghost predicate RunStep(run: Run, i: nat, ignored: set<Name>) {
    i < |run.steps| && i + 1 < |run.worlds|
    && Next(run.worlds[i], run.steps[i], run.worlds[i + 1], ignored)
  }

  function StartAt(w: World): Run {
    Run([w], [])
  }

  function Extended(run: Run, step: Step, w': World): Run {
    Run(run.worlds + [w'], run.steps + [step])
  }

  lemma StartIsRun(w: World, ignored: set<Name>)
    ensures IsRun(StartAt(w), ignored)
  {
  }

  /** One more step makes a longer run from the same start. */
  lemma ExtendRun(run: Run, w: World, step: Step, w': World, ignored: set<Name>)
    requires IsRun(run, ignored) && run.worlds[|run.steps|] == w && Next(w, step, w', ignored)
    ensures var longer := Extended(run, step, w');
            IsRun(longer, ignored) && longer.worlds[|longer.steps|] == w' && longer.worlds[0] == run.worlds[0]
  {
    var longer := Extended(run, step, w');
    forall i | 0 <= i < |longer.steps|
      ensures RunStep(longer, i, ignored)
    {
      if i < |run.steps| {
        assert RunStep(run, i, ignored);
      }
    }
  }

  /** A step that keeps the world good: allowed staging, any snapshot or abandoned
      commit, any landing that does not rotate, rotations that are sheltered, and
      recomposed pulls and swaps that cut nothing off and touch no commit in flight. */
  ghost predicate Careful(w: World, step: Step, ignored: set<Name>) {
    match step
    case Stage(op) => OpAllowed(w.view, w.log.slots, w.reg, op)
    case Snapshot(_) => true
    case Land(r, composed, _) => r in w.pending && (composed ==> Sheltered(w, r, ignored))
    case Abandon(_) => true
    case Pull(r, tree, composed) =>
      composed && r !in w.pending && (SameTree(w, r, tree) || Composable(w, w.refs[r := tree], w.reg, ignored))
    case Swap(reg, composed) => composed && SwapFits(w, reg) && Composable(w, w.refs, reg, ignored)
  }

  /** The steps that are meant to change the working tree. */
  predicate ChangesTree(step: Step) {
    step.Stage? || step.Pull? || step.Swap?
  }

  lemma StepKeepsGood(w: World, step: Step, w': World, ignored: set<Name>)
    requires Good(w, ignored) && Next(w, step, w', ignored) && Careful(w, step, ignored)
    ensures Good(w', ignored)
    ensures !ChangesTree(step) ==> forall p :: Working(w', ignored, p) == Working(w, ignored, p)
  {
    match step
    case Stage(op) => StageKeepsGood(w, op, w', ignored);
    case Snapshot(c) => SnapshotKeepsGood(w, c, w', ignored);
    case Land(r, composed, record) =>
      if LandsAndRotates(w, r, record, w', ignored) && composed {
        RotationKeepsGood(w, r, record, w', ignored);
        LandingInvisibleIff(w, r, record, w', ignored);
      } else {
        StalledLandingKeepsGood(w, r, composed, record, w', ignored);
      }
    case Abandon(r) => AbandonKeepsGood(w, r, w', ignored);
    case Pull(r, tree, _) => PullKeepsGood(w, r, tree, w', ignored);
    case Swap(reg, _) => SwapKeepsGood(w, reg, w', ignored);
  }

  lemma AbandonKeepsGood(w: World, r: Ref, w': World, ignored: set<Name>)
    requires Good(w, ignored) && Next(w, Abandon(r), w', ignored)
    ensures Good(w', ignored)
  {
    forall other | other in w'.pending
      ensures other in RefsOf(w'.reg) && Tracks(w', other, ignored)
    {
      assert Tracks(w, other, ignored);
    }
  }

  /** Step `i` of the run is careful. */
  ghost predicate CarefulStep(run: Run, i: nat, ignored: set<Name>) {
    i < |run.steps| && i < |run.worlds| && Careful(run.worlds[i], run.steps[i], ignored)
  }

  lemma RunStepKeepsGood(run: Run, ignored: set<Name>, i: nat)
    requires RunStep(run, i, ignored) && CarefulStep(run, i, ignored) && Good(run.worlds[i], ignored)
    ensures Good(run.worlds[i + 1], ignored)
    ensures !ChangesTree(run.steps[i]) ==>
              forall p :: Working(run.worlds[i + 1], ignored, p) == Working(run.worlds[i], ignored, p)
  {
    StepKeepsGood(run.worlds[i], run.steps[i], run.worlds[i + 1], ignored);
  }

  lemma {:induction false} RunStaysGood(run: Run, ignored: set<Name>, i: nat)
    requires IsRun(run, ignored) && i < |run.worlds| && Good(run.worlds[0], ignored)
    requires forall j: nat | j < |run.steps| :: CarefulStep(run, j, ignored)
    ensures Good(run.worlds[i], ignored)
  {
    if i > 0 {
      RunStaysGood(run, ignored, i - 1);
      assert RunStep(run, i - 1, ignored);
      RunStepKeepsGood(run, ignored, i - 1);
    }
  }

  /** Over every run of staging, commits of any chains, pulls and registry swaps, with
      recomposition of a landing failing or not: a snapshot, a landing or an abandoned
      commit never changes the working tree. */
  lemma OnlyTreeChangesShow(run: Run, ignored: set<Name>, i: nat)
    requires IsRun(run, ignored) && i < |run.steps| && Good(run.worlds[0], ignored)
    requires forall j: nat | j < |run.steps| :: CarefulStep(run, j, ignored)
    requires !ChangesTree(run.steps[i])
    ensures forall p :: Working(run.worlds[i + 1], ignored, p) == Working(run.worlds[i], ignored, p)
  {
    RunStaysGood(run, ignored, i);
    assert RunStep(run, i, ignored);
    RunStepKeepsGood(run, ignored, i);
  }

  /** In a good world, rotations behind it or not, a directory made where nothing is
      holds no file a commit could pick up. */
  lemma MkdirHoldsNoFile(w: World, p: Path, mode: nat, w': World, ignored: set<Name>, q: Path)
    requires Good(w, ignored) && Next(w, Stage(Mkdir(p, mode)), w', ignored)
    requires p != [] && Resolve(w.view, w.log.slots, p).Absent? && StrictlyUnder(q, p)
    ensures Working(w', ignored, q) == None
  {
    MkdirStartsEmpty(w.view, w.log, w'.log, p, mode, Files(ignored), q);
  }
}
