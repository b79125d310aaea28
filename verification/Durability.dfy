/** No staged write is lost: what absorption may drop is exactly what landed
    (crates/softfig-fuse/src/overlay.rs, crates/softfig-fuse/src/fs.rs). */
module Durability {
  import opened Paths
  import opened Trees
  import opened Chains
  import opened Views
  import opened Overlays
  import opened Live
  import opened Staging
  import opened Protocol

  /** The overlay holds a file or a removal a snapshot can be about. */
  predicate IsStagedChange(w: World, ignored: set<Name>, p: Path) {
    p in w.log.slots && !w.log.slots[p].entry.StagedDir? && !Ignored(ignored, p)
  }

  predicate IsStagedFile(w: World, ignored: set<Name>, p: Path) {
    IsStagedChange(w, ignored, p) && w.log.slots[p].entry.StagedFile?
  }

  /** If the commit in flight of `p`'s owner captured what is staged at `p`, its tree
      holds that: the file, or nothing for a removal. */
  ghost predicate HeldIfCaptured(w: World, p: Path)
    requires WellFormed(w.reg) && p in w.log.slots
  {
    var r := OwningChain(w.reg, p).refName;
    r in w.pending && w.log.slots[p].generation <= w.pending[r].cutoff ==>
      PartFile(w.reg, w.pending[r].part, p) == SlotFile(w.log.slots[p])
  }

  /** The invariant, about the one path `p`. */
  ghost predicate CaptureHeld(w: World, ignored: set<Name>, p: Path) {
    && WellFormed(w.reg) && Stamped(w.log)
    && (forall r | r in w.pending :: w.pending[r].cutoff <= w.log.generation)
    && (IsStagedChange(w, ignored, p) ==> HeldIfCaptured(w, p))
  }

  /** The side conditions, about the one path `p`: a snapshot of its owner finds the file
      staged there live and off the mount roots, and a registry swap does not hand what
      is captured there to another chain whose commit is in flight. A staged removal
      needs nothing at a snapshot, and every other step is unrestricted. */
  ghost predicate KeepsCapture(w: World, step: Step, ignored: set<Name>, p: Path) {
    match step
    case Snapshot(c) =>
      IsStagedFile(w, ignored, p) && OwningChain(w.reg, p) == c ==>
        p in Captured(w, ignored) && !IsEnabledMountRoot(w.reg, p)
    case Swap(reg, _) =>
      IsStagedChange(w, ignored, p) ==> SwapKeepsOwner(w, reg, p)
    case _ => true
  }

  ghost predicate SwapKeepsOwner(w: World, reg: Registry, p: Path)
    requires p in w.log.slots
  {
    var c := OwningChain(reg, p);
    c.refName in w.pending && w.log.slots[p].generation <= w.pending[c.refName].cutoff ==>
      OwningChain(w.reg, p) == c
  }

  /** What is captured at a staged path: the file as staged, if it is live, and
      nothing for a removal. */
  lemma CapturedAsStaged(w: World, ignored: set<Name>, p: Path)
    requires IsStagedChange(w, ignored, p) && !IsEnabledMountRoot(w.reg, p)
    ensures p in Captured(w, ignored) ==> p != [] && Some(Captured(w, ignored)[p]) == SlotFile(w.log.slots[p])
  {
    var e := Effective(w.log.slots, MountRoots(w.reg));
    assert p in e && e[p] == w.log.slots[p];
    assert LiveAt(w.view, e, ignored, p) == if p in Captured(w, ignored) then Some(Captured(w, ignored)[p]) else None;
  }

  lemma RemovalNotCaptured(w: World, ignored: set<Name>, p: Path)
    requires p in w.log.slots && w.log.slots[p].entry.Removed?
    ensures p !in Captured(w, ignored)
  {
    var e := Effective(w.log.slots, MountRoots(w.reg));
    assert p in e && e[p] == w.log.slots[p];
    assert LiveAt(w.view, e, ignored, p) == None;
  }

  /** A path is its owner's mount exactly when it is an enabled mount root, or the root. */
  lemma OwnMountIff(reg: Registry, p: Path)
    requires WellFormed(reg)
    ensures p == MountOf(OwningChain(reg, p)) <==> p == [] || IsEnabledMountRoot(reg, p)
  {
    var best := BestClaim(reg, p, |reg.shared|);
    if best.Some? {
      assert ActiveAt(reg, best.value) && reg.shared[best.value] in reg.shared;
    }
    if IsEnabledMountRoot(reg, p) {
      var i :| ActiveAt(reg, i) && reg.shared[i].mount.value == p;
      assert Claims(reg, i, p);
      SoleClaimOwns(reg, i, p);
    }
  }

  /** The part cut out for a staged path's owner holds what is staged exactly when that
      is a removal, or a file the snapshot reached and that is not at the mount itself. */
  lemma SnapshotHoldsIff(w: World, c: Chain, part: Node, ignored: set<Name>, p: Path)
    requires WellFormed(w.reg) && IsPart(w.reg, Captured(w, ignored), c, part)
    requires IsStagedChange(w, ignored, p) && OwningChain(w.reg, p) == c
    ensures PartFile(w.reg, part, p) == SlotFile(w.log.slots[p]) <==>
              (IsStagedFile(w, ignored, p) ==> p in Captured(w, ignored) && !IsEnabledMountRoot(w.reg, p))
  {
    PartFileOfPart(w.reg, Captured(w, ignored), part, p);
    OwnMountIff(w.reg, p);
    if w.log.slots[p].entry.Removed? {
      RemovalNotCaptured(w, ignored, p);
    } else if !IsEnabledMountRoot(w.reg, p) {
      CapturedAsStaged(w, ignored, p);
    }
    if p == [] {
      RootNotCaptured(w, ignored);
    }
  }

  lemma RootNotCaptured(w: World, ignored: set<Name>)
    ensures [] !in Captured(w, ignored)
  {
    assert LiveAt(w.view, Effective(w.log.slots, MountRoots(w.reg)), ignored, []) == None;
  }

  /** The snapshot reaches a staged file exactly when every ancestor resolves to a
      directory, files staged at mount roots left aside. */
  lemma CapturedIff(w: World, ignored: set<Name>, p: Path)
    requires IsStagedFile(w, ignored, p) && p != [] && !IsEnabledMountRoot(w.reg, p)
    ensures p in Captured(w, ignored) <==>
              forall k | 0 < k < |p| :: Resolve(w.view, Effective(w.log.slots, MountRoots(w.reg)), p[..k]).IsDir?
  {
    var e := Effective(w.log.slots, MountRoots(w.reg));
    assert p in e && e[p] == w.log.slots[p];
    assert LiveAt(w.view, e, ignored, p) == if p in Captured(w, ignored) then Some(Captured(w, ignored)[p]) else None;
  }

  /** A file staged exactly at an enabled mount root is captured by nobody and hides
      nothing: the snapshot is the one without it. */
  lemma StrayFileIsAbsent(w: World, ignored: set<Name>, p: Path)
    requires p in w.log.slots && w.log.slots[p].entry.StagedFile? && IsEnabledMountRoot(w.reg, p)
    ensures Captured(w, ignored) == Captured(w.(log := w.log.(slots := w.log.slots - {p})), ignored)
  {
    assert Effective(w.log.slots, MountRoots(w.reg)) == Effective(w.log.slots - {p}, MountRoots(w.reg));
  }

  /** An ancestor with an overlay entry of its own that is no directory: a file or a
      removal the marker pass of a write leaves in place. */
  predicate Blocks(w: World, a: Path) {
    a in w.log.slots && !Resolve(w.view, Effective(w.log.slots, MountRoots(w.reg)), a).IsDir?
  }

  /** `stage_write`, snapshot, landing: the landed tree holds the write exactly when it is
      not at a mount root and nothing staged above it was a file or a removal. */
  lemma WriteLandsIff(w: World, p: Path, content: Bytes, w': World, part: Node, ignored: set<Name>)
    requires WellFormed(w.reg) && Next(w, Stage(Write(p, content)), w', ignored)
    requires p != [] && !Ignored(ignored, p)
    requires IsPart(w.reg, Captured(w', ignored), OwningChain(w.reg, p), part)
    ensures p in w'.log.slots && w'.log.slots[p].entry.StagedFile? && w'.log.slots[p].entry.data.content == content
    ensures PartFile(w.reg, part, p) == SlotFile(w'.log.slots[p]) <==>
              !IsEnabledMountRoot(w.reg, p) && forall k | 0 < k < |p| :: !Blocks(w, p[..k])
  {
    var batch: map<Path, OverlayEntry> :|
      OpBatch(w.view, w.log.slots, Write(p, content), batch) && Restaged(w.log, w'.log, batch);
    SnapshotHoldsIff(w', OwningChain(w.reg, p), part, ignored, p);
    if !IsEnabledMountRoot(w.reg, p) {
      CapturedIff(w', ignored, p);
      forall k | 0 < k < |p|
        ensures Resolve(w'.view, Effective(w'.log.slots, MountRoots(w.reg)), p[..k]).IsDir? <==> !Blocks(w, p[..k])
      {
        AncestorOfWrite(w, p, content, w', batch, k);
      }
    }
  }

  lemma AncestorOfWrite(w: World, p: Path, content: Bytes, w': World, batch: map<Path, OverlayEntry>, k: nat)
    requires batch == WriteBatch(w.view, w.log.slots, p, content) && Restaged(w.log, w'.log, batch)
    requires w'.view == w.view && w'.reg == w.reg && 0 < k < |p|
    ensures Resolve(w'.view, Effective(w'.log.slots, MountRoots(w.reg)), p[..k]).IsDir? <==> !Blocks(w, p[..k])
  {
    var a, roots := p[..k], MountRoots(w.reg);
    assert a != p && StrictlyUnder(p, a);
    assert a in batch <==> a in MissingDirs(w.view, w.log.slots, p);
    if a in w.log.slots {
      assert w'.log.slots[a] == w.log.slots[a];
      assert a in Effective(w'.log.slots, roots) <==> a in Effective(w.log.slots, roots);
    }
  }

  lemma StepHoldsCapture(w: World, step: Step, w': World, ignored: set<Name>, p: Path)
    requires CaptureHeld(w, ignored, p)
    requires Next(w, step, w', ignored) && KeepsCapture(w, step, ignored, p)
    ensures CaptureHeld(w', ignored, p)
  {
    match step
    case Stage(op) =>
      var batch: map<Path, OverlayEntry> :| OpBatch(w.view, w.log.slots, op, batch) && Restaged(w.log, w'.log, batch);
      RestagedStamped(w.log, w'.log, batch);
    case Snapshot(c) =>
      EnabledChainsDistinct(w.reg);
      if IsStagedChange(w, ignored, p) && OwningChain(w.reg, p).refName == c.refName {
        SameRefSameChain(w.reg, OwningChain(w.reg, p), c);
        SnapshotHoldsIff(w, c, w'.pending[c.refName].part, ignored, p);
      }
    case _ =>
  }

  // ---- what can happen to a staged change ------------------------------------

  /** What is staged at `p` in `w` is the same slot in `w'`. */
  predicate Stays(w: World, w': World, p: Path) {
    p in w.log.slots && p in w'.log.slots && w'.log.slots[p] == w.log.slots[p]
  }

  /** ... or a later operation has staged something else there. */
  predicate RestagedAt(w: World, w': World, p: Path) {
    p in w.log.slots && p in w'.log.slots && w'.log.slots[p].generation > w.log.slots[p].generation
  }

  /** ... or the owning chain's commit has just landed and its tree holds exactly
      what was staged: the bytes and mode of a file, nothing for a removal. */
  ghost predicate LandedAt(w: World, step: Step, w': World, p: Path)
    requires WellFormed(w.reg)
  {
    && p in w.log.slots && step.Land? && step.composed
    && step.ref == OwningChain(w.reg, p).refName && step.ref in w'.refs
    && PartFile(w.reg, w'.refs[step.ref], p) == SlotFile(w.log.slots[p])
  }

  lemma SlotFate(w: World, step: Step, w': World, ignored: set<Name>, p: Path)
    requires CaptureHeld(w, ignored, p) && Next(w, step, w', ignored)
    requires IsStagedChange(w, ignored, p)
    ensures Stays(w, w', p) || RestagedAt(w, w', p) || LandedAt(w, step, w', p)
  {
    match step
    case Stage(op) =>
      var batch: map<Path, OverlayEntry> :| OpBatch(w.view, w.log.slots, op, batch) && Restaged(w.log, w'.log, batch);
      assert p in w'.log.slots;
    case _ =>
  }

  /** At step `k` what is staged in world `i` gives way, in one of the two allowed ways. */
  ghost predicate GivesWay(run: Run, i: nat, k: nat, p: Path) {
    && k < |run.steps| && k + 1 < |run.worlds| && i <= k
    && WellFormed(run.worlds[k].reg) && Stays(run.worlds[i], run.worlds[k], p)
    && (|| RestagedAt(run.worlds[k], run.worlds[k + 1], p)
        || LandedAt(run.worlds[k], run.steps[k], run.worlds[k + 1], p))
  }

  /** Step `k` of the run observes the side conditions at `p`. */
  ghost predicate StepKeepsCapture(run: Run, ignored: set<Name>, k: nat, p: Path) {
    k < |run.steps| && k < |run.worlds| && KeepsCapture(run.worlds[k], run.steps[k], ignored, p)
  }

  /** ... at some step before `j`. */
  ghost predicate GaveWay(run: Run, i: nat, j: nat, p: Path) {
    exists k: nat :: k < j && GivesWay(run, i, k, p)
  }

  lemma GaveWayLater(run: Run, i: nat, j: nat, p: Path)
    ensures GaveWay(run, i, j, p) ==> GaveWay(run, i, j + 1, p)
    ensures GivesWay(run, i, j, p) ==> GaveWay(run, i, j + 1, p)
  {
  }

  lemma {:induction false} CaptureHeldOverRun(run: Run, ignored: set<Name>, i: nat, j: nat, p: Path)
    requires IsRun(run, ignored) && i <= j < |run.worlds|
    requires CaptureHeld(run.worlds[i], ignored, p)
    requires forall k: nat | i <= k < j :: StepKeepsCapture(run, ignored, k, p)
    ensures CaptureHeld(run.worlds[j], ignored, p)
    decreases j - i
  {
    if i < j {
      CaptureHeldOverRun(run, ignored, i, j - 1, p);
      assert RunStep(run, j - 1, ignored) && StepKeepsCapture(run, ignored, j - 1, p);
      StepHoldsCapture(run.worlds[j - 1], run.steps[j - 1], run.worlds[j], ignored, p);
    }
  }

  lemma LastStepFate(run: Run, ignored: set<Name>, i: nat, k: nat, p: Path)
    requires RunStep(run, k, ignored) && i <= k
    requires CaptureHeld(run.worlds[k], ignored, p) && IsStagedChange(run.worlds[k], ignored, p)
    requires Stays(run.worlds[i], run.worlds[k], p)
    ensures Stays(run.worlds[i], run.worlds[k + 1], p) || GivesWay(run, i, k, p)
  {
    SlotFate(run.worlds[k], run.steps[k], run.worlds[k + 1], ignored, p);
  }

  lemma OneStepFurther(run: Run, ignored: set<Name>, i: nat, k: nat, p: Path)
    requires IsRun(run, ignored) && i <= k && k + 1 < |run.worlds| && CaptureHeld(run.worlds[i], ignored, p)
    requires forall n: nat | i <= n < k :: StepKeepsCapture(run, ignored, n, p)
    requires IsStagedChange(run.worlds[i], ignored, p) && Stays(run.worlds[i], run.worlds[k], p)
    ensures Stays(run.worlds[i], run.worlds[k + 1], p) || GivesWay(run, i, k, p)
  {
    CaptureHeldOverRun(run, ignored, i, k, p);
    assert RunStep(run, k, ignored);
    LastStepFate(run, ignored, i, k, p);
  }

  /** Over any run of staging, snapshots, landings, pulls, registry swaps and failed
      recompositions, a file or removal staged at `p` stays in the overlay until
      something else is staged over it or its owner's landed tree holds it. Only what
      the steps do at `p` itself matters: other files may be orphaned or handed over. */
  lemma {:induction false} NoStagedWriteLost(run: Run, ignored: set<Name>, i: nat, j: nat, p: Path)
    requires IsRun(run, ignored) && i <= j < |run.worlds|
    requires CaptureHeld(run.worlds[i], ignored, p)
    requires forall k: nat | i <= k < j :: StepKeepsCapture(run, ignored, k, p)
    requires IsStagedChange(run.worlds[i], ignored, p)
    ensures Stays(run.worlds[i], run.worlds[j], p) || GaveWay(run, i, j, p)
    decreases j - i
  {
    if i < j {
      NoStagedWriteLost(run, ignored, i, j - 1, p);
      GaveWayLater(run, i, j - 1, p);
      if Stays(run.worlds[i], run.worlds[j - 1], p) {
        OneStepFurther(run, ignored, i, j - 1, p);
      }
    }
  }

  // ---- when a swap does hand a captured file over -----------------------------

  /** A landing drops a staged file or removal exactly when it was captured and the
      chain that lands owns it under the registry in force at the landing. */
  lemma AbsorbedIff(w: World, r: Ref, record: bool, w': World, ignored: set<Name>, p: Path)
    requires LandsAndRotates(w, r, record, w', ignored)
    requires IsStagedChange(w, ignored, p)
    ensures p !in w'.log.slots <==>
            w.log.slots[p].generation <= w.pending[r].cutoff && OwningChain(w.reg, p).refName == r
  {
  }

  /** A part split under one registry, read under another that has the same chain own `p`. */
  lemma PartUnderOther(reg: Registry, files: map<Path, FileData>, c: Chain, part: Node, now: Registry, p: Path)
    requires WellFormed(now) && IsPart(reg, files, c, part) && OwningChain(now, p) == c
    ensures PartFile(now, part, p) ==
            if p in files && OwningChain(reg, p) == c && p != MountOf(c) then Some(Masked(files[p])) else None
  {
    OwnerPrefix(now, p);
    var q := Strip(p, MountOf(c));
    assert FileAt(part, q) == PartFileAt(reg, files, c, q);
    assert q == [] <==> p == MountOf(c);
  }

  /** The snapshot was split under `split.reg`; by the landing the registry may be
      another one, under which chain `c` owns `p`. The landed tree holds the staged file
      exactly when the snapshot reached it, `c` already owned it at the split, and it is
      not at the mount of `c`. Otherwise it is in no tree, and the landing drops it. */
  lemma CaptureSurvivesSwapIff(split: World, c: Chain, part: Node, now: Registry, ignored: set<Name>, p: Path)
    requires WellFormed(split.reg) && WellFormed(now)
    requires IsPart(split.reg, Captured(split, ignored), c, part)
    requires IsStagedFile(split, ignored, p) && OwningChain(now, p) == c
    ensures PartFile(now, part, p) == SlotFile(split.log.slots[p]) <==>
              p in Captured(split, ignored) && OwningChain(split.reg, p) == c && p != MountOf(c)
    ensures PartFile(now, part, p) != SlotFile(split.log.slots[p]) ==> PartFile(now, part, p) == None
  {
    PartUnderOther(split.reg, Captured(split, ignored), c, part, now, p);
    if p in Captured(split, ignored) && OwningChain(split.reg, p) == c && p != MountOf(c) {
      OwnMountIff(split.reg, p);
      CapturedAsStaged(split, ignored, p);
    }
  }

  // ---- a flush ---------------------------------------------------------------

  /** The refs of every chain that owns a staged file or removal: `pending_chain_refs`. */
  function PendingRefs(reg: Registry, s: Slots): set<Ref> {
    set p | p in s && !s[p].entry.StagedDir? :: OwningChain(reg, p).refName
  }

  /** Landing one snapshot after another, nothing in between. Whether an unchanged tree
      is recorded anyway is up to the chain: the daemon does so on the device chain only. */
  ghost predicate IsFlush(worlds: seq<World>, order: seq<Ref>, record: Ref -> bool, ignored: set<Name>) {
    && |worlds| == |order| + 1
    && (forall i, j | 0 <= i < j < |order| :: order[i] != order[j])
    && forall i | 0 <= i < |order| ::
         Next(worlds[i], Land(order[i], true, record(order[i])), worlds[i + 1], ignored)
  }

  /** The commit would advance the chain: its tree differs from what the ref holds. */
  predicate Advances(w: World, r: Ref) {
    r in w.pending && !SameTree(w, r, w.pending[r].part)
  }

  /** One landing of a flush: it touches its own chain's ref, commit and captures only. */
  lemma FlushStep(w: World, r: Ref, record: bool, w': World, ignored: set<Name>, p: Path, other: Ref)
    requires Next(w, Land(r, true, record), w', ignored)
    ensures w'.reg == w.reg
    ensures other != r && other in w.pending ==>
              other in w'.pending && w'.pending[other] == w.pending[other] && (Advances(w', other) <==> Advances(w, other))
    ensures p in w'.log.slots ==> p in w.log.slots && w'.log.slots[p] == w.log.slots[p]
    ensures p in w.log.slots && !w.log.slots[p].entry.StagedDir? ==>
              (p in w'.log.slots <==>
               !(OwningChain(w.reg, p).refName == r && w.log.slots[p].generation <= w.pending[r].cutoff
                 && (record || Advances(w, r))))
  {
  }

  /** The landings still to come are as they were when the flush began. */
  ghost predicate StillDue(first: World, now: World, r: Ref) {
    && r in first.pending && r in now.pending && now.pending[r] == first.pending[r]
    && (Advances(now, r) <==> Advances(first, r))
  }

  lemma {:induction false} FlushPending(worlds: seq<World>, order: seq<Ref>, record: Ref -> bool, ignored: set<Name>, n: nat, k: nat)
    requires IsFlush(worlds, order, record, ignored) && n <= k < |order|
    requires order[k] in worlds[0].pending
    ensures worlds[n].reg == worlds[0].reg
    ensures StillDue(worlds[0], worlds[n], order[k])
  {
    if n > 0 {
      FlushPending(worlds, order, record, ignored, n - 1, k);
      assert Next(worlds[n - 1], Land(order[n - 1], true, record(order[n - 1])), worlds[n - 1 + 1], ignored);
      FlushStep(worlds[n - 1], order[n - 1], record(order[n - 1]), worlds[n], ignored, [], order[k]);
    }
  }

  /** `r` is among the first `n` refs landed. */
  predicate LandedBy(order: seq<Ref>, n: nat, r: Ref) {
    exists i | 0 <= i < n && i < |order| :: order[i] == r
  }

  lemma LandedByNext(order: seq<Ref>, n: nat, r: Ref)
    requires 0 < n <= |order|
    ensures LandedBy(order, n, r) <==> LandedBy(order, n - 1, r) || order[n - 1] == r
  {
  }

  /** Every snapshot of the flush was cut at the overlay's generation. */
  ghost predicate CutNow(w: World, order: seq<Ref>) {
    && Stamped(w.log)
    && forall r | r in order :: r in w.pending && w.pending[r].cutoff == w.log.generation
  }

  /** Landing number `n - 1` drops an entry that is still there exactly when its chain
      is the one that lands and is not skipped. */
  lemma NthLanding(worlds: seq<World>, order: seq<Ref>, record: Ref -> bool, ignored: set<Name>, n: nat, p: Path)
    requires IsFlush(worlds, order, record, ignored) && 0 < n <= |order| && CutNow(worlds[0], order)
    requires p in worlds[0].log.slots && !worlds[0].log.slots[p].entry.StagedDir?
    requires p in worlds[n - 1].log.slots ==> worlds[n - 1].log.slots[p] == worlds[0].log.slots[p]
    ensures worlds[n].reg == worlds[0].reg
    ensures p in worlds[n].log.slots ==> p in worlds[n - 1].log.slots && worlds[n].log.slots[p] == worlds[0].log.slots[p]
    ensures var r := order[n - 1];
            p in worlds[n - 1].log.slots ==>
              (p in worlds[n].log.slots <==>
               !(OwningChain(worlds[0].reg, p).refName == r && (record(r) || Advances(worlds[0], r))))
  {
    var r := order[n - 1];
    assert Next(worlds[n - 1], Land(r, true, record(r)), worlds[n - 1 + 1], ignored);
    FlushPending(worlds, order, record, ignored, n - 1, n - 1);
    FlushStep(worlds[n - 1], r, record(r), worlds[n], ignored, p, r);
  }

  lemma {:induction false} FlushLeaves(worlds: seq<World>, order: seq<Ref>, record: Ref -> bool, ignored: set<Name>, n: nat, p: Path)
    requires IsFlush(worlds, order, record, ignored) && n <= |order| && CutNow(worlds[0], order)
    requires p in worlds[0].log.slots && !worlds[0].log.slots[p].entry.StagedDir?
    ensures worlds[n].reg == worlds[0].reg
    ensures p in worlds[n].log.slots ==> worlds[n].log.slots[p] == worlds[0].log.slots[p]
    ensures var r := OwningChain(worlds[0].reg, p).refName;
            p in worlds[n].log.slots <==> !(LandedBy(order, n, r) && (record(r) || Advances(worlds[0], r)))
  {
    if n > 0 {
      FlushLeaves(worlds, order, record, ignored, n - 1, p);
      NthLanding(worlds, order, record, ignored, n, p);
      LandedByNext(order, n, OwningChain(worlds[0].reg, p).refName);
    }
  }

  /** A flush lands one snapshot of every chain with something staged. What it leaves
      is exactly the files and removals whose commit was skipped because its tree
      equals the one already committed. */
  lemma FlushDrainsIff(worlds: seq<World>, order: seq<Ref>, record: Ref -> bool, ignored: set<Name>, p: Path)
    requires IsFlush(worlds, order, record, ignored) && CutNow(worlds[0], order)
    requires forall r | r in PendingRefs(worlds[0].reg, worlds[0].log.slots) :: r in order
    requires p in worlds[0].log.slots && !worlds[0].log.slots[p].entry.StagedDir?
    ensures p in worlds[|order|].log.slots <==>
            var r := OwningChain(worlds[0].reg, p).refName; !record(r) && !Advances(worlds[0], r)
  {
    FlushLeaves(worlds, order, record, ignored, |order|, p);
    assert OwningChain(worlds[0].reg, p).refName in PendingRefs(worlds[0].reg, worlds[0].log.slots);
  }

  /** What a skipped commit leaves staged is already committed. */
  lemma SkippedIsCommitted(w: World, ignored: set<Name>, p: Path)
    requires CaptureHeld(w, ignored, p) && IsStagedChange(w, ignored, p)
    requires var r := OwningChain(w.reg, p).refName;
             r in w.pending && w.log.slots[p].generation <= w.pending[r].cutoff && !Advances(w, r)
    ensures Mask(StoredFile(w.refs, w.reg, p)) == SlotFile(w.log.slots[p])
  {
    assert HeldIfCaptured(w, p);
    OwnerPrefix(w.reg, p);
    if BestClaim(w.reg, p, |w.reg.shared|).None? {
      assert Strip(p, []) == p;
    }
  }
}
