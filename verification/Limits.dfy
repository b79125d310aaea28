/** Where the guarantees end: runs and states in which a side condition of the
    mount protocol fails and a staged or live file goes missing. */
module Limits {
  import opened Paths
  import opened Trees
  import opened Chains
  import opened Views
  import opened Overlays
  import opened Live
  import opened Staging
  import opened Protocol
  import opened Durability
  import opened Reads
  import Mount

  const TIP: Ref := "tip"
  const DEVICE := Chain(TIP, None, true)
  const DEVICE_ONLY := Registry(DEVICE, [])
  const DATA := FileData([1], 0)
  const ROOT_VIEW: View := map[[] := DirEntry(DIR_MODE)]

  lemma DeviceOwnsAll(p: Path)
    ensures WellFormed(DEVICE_ONLY) && OwningChain(DEVICE_ONLY, p) == DEVICE
    ensures Strip(p, MountOf(DEVICE)) == p
  {
  }

  lemma EmptyTreeHasNothing(p: Path)
    ensures NodeAt(EmptyTree, p) == if p == [] then Some(EmptyTree) else None
  {
  }

  // ---- a directory only the old view supplied ---------------------------------

  const D: Path := ["d"]
  const DX: Path := ["d", "x"]
  const DY: Path := ["d", "y"]
  const TREE_DX := Dir(map["d" := Dir(map["x" := File(DATA)])])
  const VIEW_DX: View := map[[] := DirEntry(DIR_MODE), D := DirEntry(DIR_MODE), DX := Blob(DATA)]

  lemma OnlyDX(p: Path)
    ensures NodeAt(TREE_DX, p).Some? <==> p in VIEW_DX
    ensures FileAt(TREE_DX, p) == if p == DX then Some(DATA) else None
  {
    if |p| == 1 {
      assert p == [p[0]];
      NodeAtChild(TREE_DX, p[0], []);
    } else if |p| >= 2 {
      assert p == [p[0]] + p[1..];
      NodeAtChild(TREE_DX, p[0], p[1..]);
      if p[0] == "d" {
        assert p[1..] == [p[1]] + p[2..];
        NodeAtChild(TREE_DX.children["d"], p[1], p[2..]);
        assert p[2..] == [] ==> p == [p[0], p[1]];
      }
    }
  }

  const FRESH_DX := World(map[TIP := TREE_DX], DEVICE_ONLY, VIEW_DX, Log(map[], 0), map[])
  const REMOVED_DX := FRESH_DX.(log := Log(map[DX := Slot(1, Removed)], 1))
  const SPLIT_DX := REMOVED_DX.(pending := map[TIP := Commit(EmptyTree, 1)])
  /** `d/x` was removed, the commit in flight captured that, `d/y` was written since. */
  const ORPHANING := SPLIT_DX.(log := Log(map[DX := Slot(1, Removed), DY := Slot(2, StagedFile(DATA))], 2))

  /** The world once the commit has landed. */
  ghost function Orphaned(): World {
    World(map[TIP := EmptyTree], DEVICE_ONLY, ROOT_VIEW,
          Log(Absorbed(ORPHANING.log.slots, 1, OwnedBy(DEVICE_ONLY, TIP)), 2), map[])
  }

  /** Up to the world in which the commit is about to land. */
  ghost function BeforeOrphan(): Run {
    Extended(Extended(Extended(StartAt(FRESH_DX), Stage(Remove(DX)), REMOVED_DX), Snapshot(DEVICE), SPLIT_DX),
             Stage(Create(DY, DATA)), ORPHANING)
  }

  lemma FreshDX()
    ensures IsFreshMount(FRESH_DX, {})
  {
    forall p
      ensures Lookup(VIEW_DX, p) == UnionEntry(FRESH_DX.refs, DEVICE_ONLY, p)
    {
      OnlyDX(p);
    }
    forall p
      ensures OwningChain(DEVICE_ONLY, p) == DEVICE
    {
      DeviceOwnsAll(p);
    }
  }

  lemma RemovesDX()
    ensures OpAllowed(VIEW_DX, map[], DEVICE_ONLY, Remove(DX))
    ensures Next(FRESH_DX, Stage(Remove(DX)), REMOVED_DX, {})
  {
    var batch := RemovalOf(Movers(VIEW_DX, map[], DX));
    assert Movers(VIEW_DX, map[], DX) == {DX};
    assert batch == map[DX := Removed];
    StageRestages(FRESH_DX.log, DX, Removed);
    assert OpBatch(VIEW_DX, map[], Remove(DX), batch) && Restaged(FRESH_DX.log, REMOVED_DX.log, batch);
  }

  lemma SplitsDX()
    ensures Next(REMOVED_DX, Snapshot(DEVICE), SPLIT_DX, {})
  {
    forall q
      ensures FileAt(EmptyTree, q) == PartFileAt(DEVICE_ONLY, Captured(REMOVED_DX, {}), DEVICE, q)
    {
      EmptyTreeHasNothing(q);
      var e := Effective(REMOVED_DX.log.slots, MountRoots(DEVICE_ONLY));
      assert LiveAt(VIEW_DX, e, {}, MountOf(DEVICE) + q) == None;
    }
    assert IsPart(DEVICE_ONLY, Captured(REMOVED_DX, {}), DEVICE, EmptyTree);
  }

  lemma WritesDY()
    ensures OpAllowed(VIEW_DX, SPLIT_DX.log.slots, DEVICE_ONLY, Create(DY, DATA))
    ensures Next(SPLIT_DX, Stage(Create(DY, DATA)), ORPHANING, {})
  {
    assert DY[..1] == D;
    StageRestages(SPLIT_DX.log, DY, StagedFile(DATA));
    assert ORPHANING.log == Overlays.Stage(SPLIT_DX.log, DY, StagedFile(DATA));
    assert OpBatch(VIEW_DX, SPLIT_DX.log.slots, Create(DY, DATA), map[DY := StagedFile(DATA)]);
  }

  lemma OrphaningIsGood()
    ensures Good(ORPHANING, {})
  {
    FreshDX();
    FreshMountIsGood(FRESH_DX, {});
    RemovesDX();
    StageKeepsGood(FRESH_DX, Remove(DX), REMOVED_DX, {});
    SplitsDX();
    SnapshotKeepsGood(REMOVED_DX, DEVICE, SPLIT_DX, {});
    WritesDY();
    StageKeepsGood(SPLIT_DX, Create(DY, DATA), ORPHANING, {});
  }

  lemma OrphaningLands()
    ensures LandsAndRotates(ORPHANING, TIP, false, Orphaned(), {})
  {
    var w, w' := ORPHANING, Orphaned();
    assert w.refs[TIP := EmptyTree] == w'.refs;
    assert w.pending - {TIP} == map[];
    forall p
      ensures Lookup(ROOT_VIEW, p) == UnionEntry(w'.refs, DEVICE_ONLY, p)
    {
      EmptyTreeHasNothing(p);
    }
    assert "d" in TREE_DX.children;
  }

  lemma OrphanStaysStaged()
    ensures DY in Orphaned().log.slots && D !in Orphaned().log.slots && DX !in Orphaned().log.slots
  {
    assert Uncaptured(ORPHANING.log.slots, 1, OwnedBy(DEVICE_ONLY, TIP), DY);
    DeviceOwnsAll(DX);
    assert DX != D && DY != D;
  }

  lemma OrphanIsHidden()
    ensures Working(ORPHANING, {}, DY) == Some(DATA) && Working(Orphaned(), {}, DY) == None
  {
    OrphaningIsGood();
    WorkingBySlot(ORPHANING, {}, DY);
    OrphanStaysStaged();
    assert DY[..1] == D;
    assert !Resolve(ROOT_VIEW, Orphaned().log.slots, DY[..1]).IsDir?;
  }

  lemma OrphaningIsReached()
    ensures IsRun(BeforeOrphan(), {}) && BeforeOrphan().worlds[0] == FRESH_DX
    ensures BeforeOrphan().worlds[|BeforeOrphan().steps|] == ORPHANING
  {
    var start := StartAt(FRESH_DX);
    StartIsRun(FRESH_DX, {});
    RemovesDX();
    ExtendRun(start, FRESH_DX, Stage(Remove(DX)), REMOVED_DX, {});
    var removed := Extended(start, Stage(Remove(DX)), REMOVED_DX);
    SplitsDX();
    ExtendRun(removed, REMOVED_DX, Snapshot(DEVICE), SPLIT_DX, {});
    var split := Extended(removed, Snapshot(DEVICE), SPLIT_DX);
    WritesDY();
    ExtendRun(split, SPLIT_DX, Stage(Create(DY, DATA)), ORPHANING, {});
  }

  /** From a fresh mount: remove `d/x`, snapshot, write `d/y`, land. The landing takes
      `d` out of the view and leaves `d/y` staged but out of reach: the directory was
      only ever the old view's, so no marker was staged for it. */
  lemma LandingCanOrphan()
    ensures IsFreshMount(FRESH_DX, {}) && IsRun(BeforeOrphan(), {}) && BeforeOrphan().worlds[0] == FRESH_DX
    ensures BeforeOrphan().worlds[|BeforeOrphan().steps|] == ORPHANING
    ensures Good(ORPHANING, {}) && LandsAndRotates(ORPHANING, TIP, false, Orphaned(), {})
    ensures Working(ORPHANING, {}, DY) == Some(DATA) && Working(Orphaned(), {}, DY) == None
    ensures DY in Orphaned().log.slots
  {
    FreshDX();
    OrphaningIsReached();
    OrphaningIsGood();
    OrphaningLands();
    OrphanIsHidden();
    OrphanStaysStaged();
  }

  // ---- staging under a removed directory ---------------------------------------

  const NEW_DY := StagedFile(FileData([1], FILE_MODE))
  const GONE_D := FRESH_DX.(log := Log(map[DX := Slot(1, Removed), D := Slot(2, Removed)], 2))
  const WROTE_DY := FRESH_DX.(log := Log(map[DX := Slot(1, Removed), D := Slot(2, Removed), DY := Slot(3, NEW_DY)], 3))
  const SPLIT_DY := WROTE_DY.(pending := map[TIP := Commit(EmptyTree, 3)])

  ghost function Dropped(): World {
    World(map[TIP := EmptyTree], DEVICE_ONLY, ROOT_VIEW,
          Log(Absorbed(SPLIT_DY.log.slots, 3, OwnedBy(DEVICE_ONLY, TIP)), 3), map[])
  }

  /** Up to the world in which the commit is about to land. */
  ghost function BeforeDrop(): Run {
    Extended(Extended(Extended(StartAt(FRESH_DX), Stage(Remove(D)), GONE_D), Stage(Write(DY, [1])), WROTE_DY),
             Snapshot(DEVICE), SPLIT_DY)
  }

  lemma RemovesD()
    ensures Next(FRESH_DX, Stage(Remove(D)), GONE_D, {})
  {
    var batch: map<Path, OverlayEntry> := map[DX := Removed, D := Removed];
    assert DX[..1] == D && D != DX;
    assert Movers(VIEW_DX, map[], D) == {D, DX};
    assert RemovalOf(Movers(VIEW_DX, map[], D)) == batch;
    assert OpBatch(VIEW_DX, map[], Remove(D), batch) && Restaged(FRESH_DX.log, GONE_D.log, batch);
  }

  lemma WritesUnderD()
    ensures Next(GONE_D, Stage(Write(DY, [1])), WROTE_DY, {})
    ensures Blocks(GONE_D, D)
  {
    assert DY[..1] == D && D != DY && D != DX;
    assert MissingDirs(VIEW_DX, GONE_D.log.slots, DY) == {} by {
      forall d | d != [] && StrictlyUnder(DY, d)
        ensures d == D
      {
        assert d == DY[..1];
      }
    }
    assert WriteBatch(VIEW_DX, GONE_D.log.slots, DY, [1]) == map[DY := NEW_DY];
    StageRestages(GONE_D.log, DY, NEW_DY);
    assert WROTE_DY.log == Overlays.Stage(GONE_D.log, DY, NEW_DY);
    assert OpBatch(VIEW_DX, GONE_D.log.slots, Write(DY, [1]), map[DY := NEW_DY]);
  }

  lemma NothingLeftInD(p: Path)
    ensures LiveAt(VIEW_DX, Effective(WROTE_DY.log.slots, MountRoots(DEVICE_ONLY)), {}, p) == None
    ensures LiveAt(VIEW_DX, WROTE_DY.log.slots, {}, p) == None
  {
    assert DY[..1] == D && D != DY && D != DX;
    assert Effective(WROTE_DY.log.slots, MountRoots(DEVICE_ONLY)) == WROTE_DY.log.slots;
  }

  lemma SplitsDY()
    ensures Next(WROTE_DY, Snapshot(DEVICE), SPLIT_DY, {})
  {
    forall q
      ensures FileAt(EmptyTree, q) == PartFileAt(DEVICE_ONLY, Captured(WROTE_DY, {}), DEVICE, q)
    {
      EmptyTreeHasNothing(q);
      NothingLeftInD(MountOf(DEVICE) + q);
    }
    assert IsPart(DEVICE_ONLY, Captured(WROTE_DY, {}), DEVICE, EmptyTree);
  }

  lemma MissesDY()
    ensures !KeepsCapture(WROTE_DY, Snapshot(DEVICE), {}, DY)
  {
    NothingLeftInD(DY);
    DeviceOwnsAll(DY);
    assert DY != D && DY != DX;
  }

  lemma DropLands()
    ensures LandsAndRotates(SPLIT_DY, TIP, false, Dropped(), {})
    ensures DY !in Dropped().log.slots && StoredFile(Dropped().refs, DEVICE_ONLY, DY) == None
  {
    var w, w' := SPLIT_DY, Dropped();
    assert w.refs[TIP := EmptyTree] == w'.refs;
    assert w.pending - {TIP} == map[];
    forall p
      ensures Lookup(ROOT_VIEW, p) == UnionEntry(w'.refs, DEVICE_ONLY, p)
    {
      EmptyTreeHasNothing(p);
    }
    assert "d" in TREE_DX.children;
    DeviceOwnsAll(DY);
    EmptyTreeHasNothing(DY);
  }

  lemma DropIsReached()
    ensures IsRun(BeforeDrop(), {}) && BeforeDrop().worlds[0] == FRESH_DX
    ensures BeforeDrop().worlds[|BeforeDrop().steps|] == SPLIT_DY
  {
    var start := StartAt(FRESH_DX);
    StartIsRun(FRESH_DX, {});
    RemovesD();
    ExtendRun(start, FRESH_DX, Stage(Remove(D)), GONE_D, {});
    var gone := Extended(start, Stage(Remove(D)), GONE_D);
    WritesUnderD();
    ExtendRun(gone, GONE_D, Stage(Write(DY, [1])), WROTE_DY, {});
    var wrote := Extended(gone, Stage(Write(DY, [1])), WROTE_DY);
    SplitsDY();
    ExtendRun(wrote, WROTE_DY, Snapshot(DEVICE), SPLIT_DY, {});
  }

  /** From a fresh mount: remove `d`, `stage_write` `d/y`, snapshot, land. The marker pass
      leaves the removal of `d` in place, so no snapshot reaches `d/y`, and the landing
      drops it all the same: the bytes end in no overlay and in no tree. */
  lemma WriteUnderRemovedIsLost()
    ensures IsFreshMount(FRESH_DX, {}) && IsRun(BeforeDrop(), {}) && BeforeDrop().worlds[0] == FRESH_DX
    ensures BeforeDrop().worlds[|BeforeDrop().steps|] == SPLIT_DY
    ensures DY in SPLIT_DY.log.slots && SPLIT_DY.log.slots[DY].entry == NEW_DY && Working(SPLIT_DY, {}, DY) == None
    ensures Blocks(GONE_D, D) && !KeepsCapture(WROTE_DY, Snapshot(DEVICE), {}, DY)
    ensures LandsAndRotates(SPLIT_DY, TIP, false, Dropped(), {})
    ensures DY !in Dropped().log.slots && StoredFile(Dropped().refs, Dropped().reg, DY) == None
  {
    FreshDX();
    DropIsReached();
    WritesUnderD();
    MissesDY();
    NothingLeftInD(DY);
    DropLands();
    assert DY != D && DY != DX;
  }

  // ---- a directory renamed onto one with entries ----------------------------------

  const E: Path := ["e"]
  const EX: Path := ["e", "x"]
  const EXY: Path := ["e", "x", "y"]
  const EZ: Path := ["e", "z"]
  const FULL := StagedFile(DATA)
  const MARK := StagedDir(DIR_MODE)

  const MADE_E := FRESH_DX.(log := Log(map[E := Slot(1, MARK)], 1))
  const MADE_EX := FRESH_DX.(log := Log(map[E := Slot(1, MARK), EX := Slot(2, MARK)], 2))
  const MADE_EXY := FRESH_DX.(log := Log(map[E := Slot(1, MARK), EX := Slot(2, MARK), EXY := Slot(3, FULL)], 3))
  /** `d/x` is committed, `e/x/y` and `e/z` are new. */
  const TWO_DIRS := FRESH_DX.(log :=
    Log(map[E := Slot(1, MARK), EX := Slot(2, MARK), EXY := Slot(3, FULL), EZ := Slot(4, FULL)], 4))
  const MERGED := FRESH_DX.(log :=
    Log(map[EXY := Slot(3, FULL), EZ := Slot(4, FULL),
            DX := Slot(5, Removed), EX := Slot(6, FULL), D := Slot(7, Removed), E := Slot(8, MARK)], 8))

  ghost function Merging(): Run {
    Extended(Extended(Extended(Extended(Extended(StartAt(FRESH_DX),
      Stage(Mkdir(E, DIR_MODE)), MADE_E), Stage(Mkdir(EX, DIR_MODE)), MADE_EX),
      Stage(Create(EXY, DATA)), MADE_EXY), Stage(Create(EZ, DATA)), TWO_DIRS), Stage(Rename(D, E)), MERGED)
  }

  lemma FilesOneStep(w: World, p: Path, data: FileData)
    ensures Next(w, Stage(Create(p, data)), w.(log := Overlays.Stage(w.log, p, StagedFile(data))), {})
  {
    StageRestages(w.log, p, StagedFile(data));
    assert OpBatch(w.view, w.log.slots, Create(p, data), map[p := StagedFile(data)]);
  }

  lemma MakesOneStep(w: World, p: Path, mode: nat)
    ensures Next(w, Stage(Mkdir(p, mode)), w.(log := Overlays.Stage(w.log, p, StagedDir(mode))), {})
  {
    StageRestages(w.log, p, StagedDir(mode));
    assert OpBatch(w.view, w.log.slots, Mkdir(p, mode), map[p := StagedDir(mode)]);
  }

  lemma MoverOfD(p: Path)
    ensures IsMover(VIEW_DX, TWO_DIRS.log.slots, D, p) <==> p == D || p == DX
  {
    assert DX[..1] == D && EX[..1] == E && EXY[..1] == E && EZ[..1] == E && D != E;
    assert forall q | q in TWO_DIRS.log.slots :: q[..1] == E && !StartsWith(q, D);
  }

  lemma MoversOfD(p: Path)
    ensures IsMover(VIEW_DX, TWO_DIRS.log.slots, D, p) <==> p == D || p == DX
    ensures IsImage(VIEW_DX, TWO_DIRS.log.slots, D, E, p) <==> p == E || p == EX
  {
    assert DX[..1] == D && EX[..1] == E && EXY[..1] == E && EZ[..1] == E && D != E;
    assert D + [] == D && D + ["x"] == DX;
    MoverOfD(p);
    if StartsWith(p, E) {
      MoverOfD(D + Strip(p, E));
      assert p == E + Strip(p, E);
      assert Strip(p, E) == (D + Strip(p, E))[1..];
    }
    assert Strip(E, E) == [] && Strip(EX, E) == ["x"];
  }

  lemma Renames()
    ensures Next(TWO_DIRS, Stage(Rename(D, E)), MERGED, {})
  {
    var v, s := VIEW_DX, TWO_DIRS.log.slots;
    var batch: map<Path, OverlayEntry> := map[DX := Removed, EX := FULL, D := Removed, E := MARK];
    assert Strip(E, E) == [] && Strip(EX, E) == ["x"] && D + [] == D && D + ["x"] == DX;
    forall p
      ensures RenameEntry(v, s, D, E, p) == if p in batch then Some(batch[p]) else None
    {
      MoversOfD(p);
    }
    assert IsRenameBatch(v, s, D, E, batch);
    assert Restaged(TWO_DIRS.log, MERGED.log, batch);
    assert OpBatch(v, s, Rename(D, E), batch);
  }

  lemma MergingIsReached()
    ensures IsRun(Merging(), {}) && Merging().worlds[0] == FRESH_DX
    ensures Merging().worlds[|Merging().steps|] == MERGED
  {
    var start := StartAt(FRESH_DX);
    StartIsRun(FRESH_DX, {});
    MakesOneStep(FRESH_DX, E, DIR_MODE);
    ExtendRun(start, FRESH_DX, Stage(Mkdir(E, DIR_MODE)), MADE_E, {});
    var one := Extended(start, Stage(Mkdir(E, DIR_MODE)), MADE_E);
    MakesOneStep(MADE_E, EX, DIR_MODE);
    ExtendRun(one, MADE_E, Stage(Mkdir(EX, DIR_MODE)), MADE_EX, {});
    var two := Extended(one, Stage(Mkdir(EX, DIR_MODE)), MADE_EX);
    FilesOneStep(MADE_EX, EXY, DATA);
    ExtendRun(two, MADE_EX, Stage(Create(EXY, DATA)), MADE_EXY, {});
    var three := Extended(two, Stage(Create(EXY, DATA)), MADE_EXY);
    FilesOneStep(MADE_EXY, EZ, DATA);
    ExtendRun(three, MADE_EXY, Stage(Create(EZ, DATA)), TWO_DIRS, {});
    var four := Extended(three, Stage(Create(EZ, DATA)), TWO_DIRS);
    Renames();
    ExtendRun(four, TWO_DIRS, Stage(Rename(D, E)), MERGED, {});
  }

  /** A path the merge is about, looked up with what is above it. */
  lemma MergeLooks()
    ensures forall p | p == DX || p == EXY || p == EZ :: Working(TWO_DIRS, {}, p) == Some(DATA)
    ensures Working(MERGED, {}, EX) == Some(DATA) && Working(MERGED, {}, EZ) == Some(DATA)
    ensures Working(MERGED, {}, EXY) == None && EXY in MERGED.log.slots
  {
    assert DX[..1] == D && EX[..1] == E && EZ[..1] == E && EXY[..1] == E && EXY[..2] == EX;
    forall k | 0 < k < |EXY|
      ensures Resolve(VIEW_DX, TWO_DIRS.log.slots, EXY[..k]).IsDir?
    {
      assert k == 1 || k == 2;
    }
  }

  /** From a fresh mount with `d/x`: make `e/x/y` and `e/z`, rename `d` onto `e`. POSIX
      would refuse, `e` not being empty. The mount merges the two: `e/z` is still there
      beside the new `e/x`, and `e/x/y`, now under a file, can be reached no more. */
  lemma RenameMergesAndCuts()
    ensures IsFreshMount(FRESH_DX, {}) && IsRun(Merging(), {}) && Merging().worlds[0] == FRESH_DX
    ensures Merging().worlds[|Merging().steps|] == MERGED
    ensures forall p | p == DX || p == EXY || p == EZ :: Working(TWO_DIRS, {}, p) == Some(DATA)
    ensures Working(MERGED, {}, EX) == Some(DATA) && Working(MERGED, {}, EZ) == Some(DATA)
    ensures Working(MERGED, {}, EXY) == None && EXY in MERGED.log.slots
    ensures !CanMove(VIEW_DX, TWO_DIRS.log.slots, D, E)
  {
    FreshDX();
    MergingIsReached();
    MergeLooks();
    MoversOfD(DX);
    assert DX[..1] == D && Strip(DX, D) == ["x"] && E + ["x"] == EX;
    assert Remap(D, E, DX) == EX;
  }

  // ---- a registry swap between split and landing --------------------------------

  const SHARE := Chain("share", Some(["s"]), true)
  const WITH_SHARE := Registry(DEVICE, [SHARE])
  const SHARE_OFF := Registry(DEVICE, [SHARE.(enabled := false)])
  const SX: Path := ["s", "x"]
  const TREE_A := Dir(map["a" := File(DATA)])

  lemma OnlyA(p: Path)
    ensures NodeAt(TREE_A, p) == if p == [] then Some(TREE_A) else if p == ["a"] then Some(File(DATA)) else None
  {
    if |p| == 1 {
      assert p == [p[0]];
      NodeAtChild(TREE_A, p[0], []);
    } else if |p| >= 2 {
      assert p == [p[0]] + p[1..];
      NodeAtChild(TREE_A, p[0], p[1..]);
    }
  }

  const A: Path := ["a"]
  const S: Path := ["s"]
  const SHARED_VIEW: View := map[[] := DirEntry(DIR_MODE), S := DirEntry(DIR_MODE)]
  const A_VIEW: View := map[[] := DirEntry(DIR_MODE), A := Blob(DATA)]

  const FRESH_SHARE := World(map[TIP := EmptyTree, "share" := EmptyTree], WITH_SHARE, SHARED_VIEW, Log(map[], 0), map[])
  const WROTE_A := FRESH_SHARE.(log := Log(map[A := Slot(1, StagedFile(DATA))], 1))
  const WROTE_BOTH := FRESH_SHARE.(log := Log(map[A := Slot(1, StagedFile(DATA)), SX := Slot(2, StagedFile(DATA))], 2))
  /** The device commit, which rightly leaves the share's file out, is in flight. */
  const SPLIT_SHARE := WROTE_BOTH.(pending := map[TIP := Commit(TREE_A, 2)])
  /** The share is then disabled. */
  const SWAPPED := SPLIT_SHARE.(reg := SHARE_OFF, view := ROOT_VIEW)

  ghost function Lost(): World {
    SWAPPED.(refs := SWAPPED.refs[TIP := TREE_A], view := A_VIEW, pending := SWAPPED.pending - {TIP},
             log := SWAPPED.log.(slots := Absorbed(SWAPPED.log.slots, 2, OwnedBy(SHARE_OFF, TIP))))
  }

  /** Up to the world in which the share is about to be disabled. */
  ghost function BeforeSwap(): Run {
    Extended(Extended(Extended(StartAt(FRESH_SHARE), Stage(Create(A, DATA)), WROTE_A), Stage(Create(SX, DATA)), WROTE_BOTH),
             Snapshot(DEVICE), SPLIT_SHARE)
  }

  /** With the share on it owns what is at and under `s`, and the device the rest. */
  lemma ShareOwns(p: Path)
    ensures WellFormed(WITH_SHARE)
    ensures OwningChain(WITH_SHARE, p) == if StartsWith(p, S) then SHARE else DEVICE
  {
    if StartsWith(p, S) {
      assert Claims(WITH_SHARE, 0, p);
      SoleClaimOwns(WITH_SHARE, 0, p);
    } else {
      assert forall i :: !Claims(WITH_SHARE, i, p);
    }
  }

  lemma ShareOffOwns(p: Path)
    ensures WellFormed(SHARE_OFF) && OwningChain(SHARE_OFF, p) == DEVICE && BestClaim(SHARE_OFF, p, 1) == None
  {
    assert forall i :: !Claims(SHARE_OFF, i, p);
  }

  lemma SharedUnion(p: Path)
    ensures Lookup(SHARED_VIEW, p) == UnionEntry(FRESH_SHARE.refs, WITH_SHARE, p)
  {
    var refs := FRESH_SHARE.refs;
    ShareOwns(p);
    EmptyTreeHasNothing(p);
    if StartsWith(p, S) {
      assert GraftedOver(refs, WITH_SHARE, 0, p);
      GraftedEntry(refs, WITH_SHARE, 0, p);
      EmptyTreeHasNothing(Strip(p, S));
      assert Strip(p, S) == [] <==> p == S;
    } else {
      assert forall i :: !GraftedOver(refs, WITH_SHARE, i, p);
      UngraftedEntry(refs, WITH_SHARE, p);
      if p == [] {
        assert AboveGraft(refs, WITH_SHARE, 0, p);
      } else {
        assert forall i :: !AboveGraft(refs, WITH_SHARE, i, p) by {
          assert forall q | StrictlyUnder(S, q) :: q == [];
        }
      }
    }
  }

  lemma FreshShare()
    ensures IsFreshMount(FRESH_SHARE, {})
  {
    forall p
      ensures Lookup(SHARED_VIEW, p) == UnionEntry(FRESH_SHARE.refs, WITH_SHARE, p)
      ensures OwningChain(WITH_SHARE, p).refName in FRESH_SHARE.refs
      ensures FileAt(EmptyTree, p) == None
    {
      SharedUnion(p);
      ShareOwns(p);
      EmptyTreeHasNothing(p);
    }
  }

  lemma WritesShare()
    ensures OpAllowed(SHARED_VIEW, map[], WITH_SHARE, Create(A, DATA))
    ensures Next(FRESH_SHARE, Stage(Create(A, DATA)), WROTE_A, {})
    ensures OpAllowed(SHARED_VIEW, WROTE_A.log.slots, WITH_SHARE, Create(SX, DATA))
    ensures Next(WROTE_A, Stage(Create(SX, DATA)), WROTE_BOTH, {})
  {
    assert SX[..1] == S && A != S && A != SX && SX != S;
    StageRestages(FRESH_SHARE.log, A, StagedFile(DATA));
    assert WROTE_A.log == Overlays.Stage(FRESH_SHARE.log, A, StagedFile(DATA));
    StageRestages(WROTE_A.log, SX, StagedFile(DATA));
    assert WROTE_BOTH.log == Overlays.Stage(WROTE_A.log, SX, StagedFile(DATA));
    assert OpBatch(SHARED_VIEW, map[], Create(A, DATA), map[A := StagedFile(DATA)]);
    assert OpBatch(SHARED_VIEW, WROTE_A.log.slots, Create(SX, DATA), map[SX := StagedFile(DATA)]);
  }

  lemma CapturesBoth(p: Path)
    ensures p in Captured(WROTE_BOTH, {}) <==> p == A || p == SX
    ensures p in Captured(WROTE_BOTH, {}) ==> Captured(WROTE_BOTH, {})[p] == DATA
  {
    var s := WROTE_BOTH.log.slots;
    var e := Effective(s, MountRoots(WITH_SHARE));
    assert SX[..1] == S && A != S && SX != S;
    assert e == s by {
      assert forall q | q in MountRoots(WITH_SHARE) :: q == S;
    }
    assert LiveAt(SHARED_VIEW, e, {}, p) == if p in Captured(WROTE_BOTH, {}) then Some(Captured(WROTE_BOTH, {})[p]) else None;
    assert |A| == 1;
    if p == SX {
      assert forall k | 0 < k < |SX| :: k == 1 && SX[..k] == S;
    }
  }

  lemma SplitsShare()
    ensures Next(WROTE_BOTH, Snapshot(DEVICE), SPLIT_SHARE, {})
  {
    forall q
      ensures FileAt(TREE_A, q) == PartFileAt(WITH_SHARE, Captured(WROTE_BOTH, {}), DEVICE, q)
    {
      OnlyA(q);
      assert MountOf(DEVICE) + q == q;
      CapturesBoth(q);
      ShareOwns(q);
      assert StartsWith(SX, S) && !StartsWith(A, S);
    }
    assert TREE_A.children["a"] != EmptyTree;
    assert IsPart(WITH_SHARE, Captured(WROTE_BOTH, {}), DEVICE, TREE_A);
    assert DEVICE in EnabledChains(WITH_SHARE);
  }

  lemma SplitShareIsGood()
    ensures Good(SPLIT_SHARE, {})
  {
    FreshShare();
    FreshMountIsGood(FRESH_SHARE, {});
    WritesShare();
    StageKeepsGood(FRESH_SHARE, Create(A, DATA), WROTE_A, {});
    StageKeepsGood(WROTE_A, Create(SX, DATA), WROTE_BOTH, {});
    SplitsShare();
    SnapshotKeepsGood(WROTE_BOTH, DEVICE, SPLIT_SHARE, {});
  }

  lemma Swaps()
    ensures Next(SPLIT_SHARE, Swap(SHARE_OFF, true), SWAPPED, {})
    ensures !KeepsCapture(SPLIT_SHARE, Swap(SHARE_OFF, true), {}, SX)
  {
    forall p
      ensures Lookup(ROOT_VIEW, p) == UnionEntry(SWAPPED.refs, SHARE_OFF, p)
    {
      ShareOffOwns(p);
      EmptyTreeHasNothing(p);
      assert forall i :: !AboveGraft(SWAPPED.refs, SHARE_OFF, i, p);
    }
    ShareOffOwns(SX);
    ShareOwns(SX);
    assert StartsWith(SX, S);
  }

  lemma SwappedLands()
    ensures LandsAndRotates(SWAPPED, TIP, false, Lost(), {})
  {
    var w, w' := SWAPPED, Lost();
    forall p
      ensures Lookup(w'.view, p) == UnionEntry(w'.refs, SHARE_OFF, p)
    {
      OnlyA(p);
      ShareOffOwns(p);
      assert forall i :: !AboveGraft(w'.refs, SHARE_OFF, i, p);
    }
    assert "a" in TREE_A.children;
  }

  lemma LostSlotIsGone()
    ensures SX !in Lost().log.slots
  {
    ShareOffOwns(SX);
  }

  lemma LostIsStoredNowhere()
    ensures StoredFile(Lost().refs, SHARE_OFF, SX) == None
  {
    ShareOffOwns(SX);
    OnlyA(SX);
  }

  lemma LostWasLive()
    ensures Working(SPLIT_SHARE, {}, SX) == Some(DATA)
  {
    SplitShareIsGood();
    WorkingBySlot(SPLIT_SHARE, {}, SX);
  }

  lemma LostIsGone()
    ensures SX !in Lost().log.slots && StoredFile(Lost().refs, SHARE_OFF, SX) == None
    ensures Working(SPLIT_SHARE, {}, SX) == Some(DATA) && Working(Lost(), {}, SX) == None
  {
    LostSlotIsGone();
    LostIsStoredNowhere();
    LostWasLive();
    assert SX !in A_VIEW;
  }

  lemma SwapIsReached()
    ensures IsRun(BeforeSwap(), {}) && BeforeSwap().worlds[0] == FRESH_SHARE
    ensures BeforeSwap().worlds[|BeforeSwap().steps|] == SPLIT_SHARE
  {
    var start := StartAt(FRESH_SHARE);
    StartIsRun(FRESH_SHARE, {});
    WritesShare();
    ExtendRun(start, FRESH_SHARE, Stage(Create(A, DATA)), WROTE_A, {});
    var one := Extended(start, Stage(Create(A, DATA)), WROTE_A);
    ExtendRun(one, WROTE_A, Stage(Create(SX, DATA)), WROTE_BOTH, {});
    var two := Extended(one, Stage(Create(SX, DATA)), WROTE_BOTH);
    SplitsShare();
    ExtendRun(two, WROTE_BOTH, Snapshot(DEVICE), SPLIT_SHARE, {});
  }

  /** From a fresh mount: write `a` and `s/x`, snapshot the device chain, disable the
      share, land. Disabling it hands the captured `s/x` to the device chain, whose
      landing absorbs it although no tree holds it. */
  lemma SwapCanLoseWrite()
    ensures IsFreshMount(FRESH_SHARE, {}) && IsRun(BeforeSwap(), {}) && BeforeSwap().worlds[0] == FRESH_SHARE
    ensures BeforeSwap().worlds[|BeforeSwap().steps|] == SPLIT_SHARE && Good(SPLIT_SHARE, {})
    ensures Next(SPLIT_SHARE, Swap(SHARE_OFF, true), SWAPPED, {})
    ensures !KeepsCapture(SPLIT_SHARE, Swap(SHARE_OFF, true), {}, SX)
    ensures LandsAndRotates(SWAPPED, TIP, false, Lost(), {})
    ensures Working(SPLIT_SHARE, {}, SX) == Some(DATA) && Working(Lost(), {}, SX) == None
    ensures SX !in Lost().log.slots && StoredFile(Lost().refs, Lost().reg, SX) == None
  {
    FreshShare();
    SwapIsReached();
    SplitShareIsGood();
    Swaps();
    SwappedLands();
    LostIsGone();
  }

  // ---- a mode change that is more than one -----------------------------------------

  const MODE := 0x1A4
  const AT_A := World(map[TIP := TREE_A], DEVICE_ONLY, A_VIEW, Log(map[], 0), map[])
  const PULLED := AT_A.(refs := map[TIP := EmptyTree], view := ROOT_VIEW)
  const CHMODDED := PULLED.(log := Log(map[A := Slot(1, StagedFile(FileData([], MODE)))], 1))

  lemma ViewOfA(v: View)
    requires ShowsUnion(v, map[TIP := TREE_A], DEVICE_ONLY)
    ensures v == A_VIEW
  {
    forall p
      ensures Lookup(v, p) == Lookup(A_VIEW, p)
    {
      OnlyA(p);
      assert Lookup(v, p) == UnionEntry(map[TIP := TREE_A], DEVICE_ONLY, p);
    }
    SameView(v, A_VIEW);
  }

  lemma ViewOfNothing(v: View)
    requires ShowsUnion(v, map[TIP := EmptyTree], DEVICE_ONLY)
    ensures v == ROOT_VIEW
  {
    forall p
      ensures Lookup(v, p) == Lookup(ROOT_VIEW, p)
    {
      EmptyTreeHasNothing(p);
      assert Lookup(v, p) == UnionEntry(map[TIP := EmptyTree], DEVICE_ONLY, p);
    }
    SameView(v, ROOT_VIEW);
  }

  lemma SameView(v: View, w: View)
    requires forall p :: Lookup(v, p) == Lookup(w, p)
    ensures v == w
  {
    forall p
      ensures p in v <==> p in w
      ensures p in v ==> v[p] == w[p]
    {
      assert Lookup(v, p) == Lookup(w, p);
    }
  }

  lemma UnionOfA(p: Path)
    ensures Lookup(A_VIEW, p) == UnionEntry(map[TIP := TREE_A], DEVICE_ONLY, p)
    ensures Lookup(ROOT_VIEW, p) == UnionEntry(map[TIP := EmptyTree], DEVICE_ONLY, p)
  {
    OnlyA(p);
    EmptyTreeHasNothing(p);
  }

  lemma ChmodStages()
    ensures Next(AT_A, Pull(TIP, EmptyTree, true), PULLED, {})
    ensures Next(PULLED, Stage(Create(A, FileData([], MODE))), CHMODDED, {})
  {
    assert AT_A.refs[TIP := EmptyTree] == PULLED.refs;
    forall p
      ensures Lookup(ROOT_VIEW, p) == UnionEntry(PULLED.refs, DEVICE_ONLY, p)
    {
      UnionOfA(p);
    }
    assert "a" in TREE_A.children;
    StageRestages(PULLED.log, A, StagedFile(FileData([], MODE)));
    assert OpBatch(ROOT_VIEW, map[], Create(A, FileData([], MODE)), map[A := StagedFile(FileData([], MODE))]);
  }

  /** A pull deletes `a`; a mode change on it, whose read-back is empty, makes it anew. */
  lemma ChmodMakesFile()
    ensures IsRun(Extended(Extended(StartAt(AT_A), Pull(TIP, EmptyTree, true), PULLED),
                           Stage(Create(A, FileData([], MODE))), CHMODDED), {})
    ensures ReadBack(PLAIN, PULLED.view, PULLED.log.slots, map[], A, {}) == []
    ensures WorkfileBack(PULLED.view, PULLED.log.slots, A, {}) == []
    ensures Working(PULLED, {}, A) == None && Working(CHMODDED, {}, A) == Some(FileData([], MODE))
  {
    StartIsRun(AT_A, {});
    ChmodStages();
    ExtendRun(StartAt(AT_A), AT_A, Pull(TIP, EmptyTree, true), PULLED, {});
    ExtendRun(Extended(StartAt(AT_A), Pull(TIP, EmptyTree, true), PULLED), PULLED,
              Stage(Create(A, FileData([], MODE))), CHMODDED, {});
    assert |A| == 1;
  }

  /** `a` is sealed and shows as one byte of its own. */
  const SEALING := Reader(p => p == A, p => [9], (p, bytes) => bytes)
  const PLAIN := Reader(p => false, p => [9], (p, bytes) => bytes)

  /** A mode change through the kernel on a sealed file stages its placeholder. */
  lemma ChmodLosesSealed()
    ensures var back := ReadBack(SEALING, A_VIEW, map[], map[], A, {});
            var after := Overlays.Stage(Log(map[], 0), A, StagedFile(FileData(back, MODE)));
            && LiveAt(A_VIEW, map[], {}, A) == Some(DATA)
            && LiveAt(A_VIEW, after.slots, {}, A) == Some(FileData([9], MODE))
            && !KernelGivesBack(SEALING, map[], map[], A, {}, DATA.content)
  {
    assert |A| == 1;
  }

  /** A kernel write of one byte behind it stages the placeholder with that byte. */
  lemma WriteLosesSealed()
    ensures var back := Answer(SEALING, A_VIEW, map[], map[], A, {});
            && back.Some?
            && var after := Overlays.Stage(Log(map[], 0), A, StagedFile(FileData(Spliced(back.value, 1, [5]), 0)));
               && LiveAt(A_VIEW, map[], {}, A) == Some(DATA)
               && LiveAt(A_VIEW, after.slots, {}, A) == Some(FileData([9, 5], 0))
               && Spliced(DATA.content, 1, [5]) == [1, 5]
               && !SameOutside(Shown(SEALING, A, DATA.content), DATA.content, 1, 1)
  {
    assert |A| == 1;
    assert Spliced([9], 1, [5]) == [9, 5];
    assert ByteAt([9], 0) != ByteAt([1], 0);
  }

  lemma AWellFormed()
    ensures WellFormed(DEVICE_ONLY) && TreesAreDirs(map[TIP := TREE_A]) && !IsEnabledMountRoot(DEVICE_ONLY, A)
  {
    DeviceOwnsAll(A);
  }

  /** A mount of `a` alone, and the inode it hands out for it. */
  method MountA() returns (m: Mount.SharedState, ino: nat)
    ensures fresh(m) && fresh(m.overlay) && fresh(m.inodes) && m.Valid()
    ensures m.refs == map[TIP := TREE_A] && m.registry == DEVICE_ONLY && m.reader == PLAIN && m.ignored == {}
    ensures m.view == A_VIEW && m.overlay.State() == Log(map[], 0)
    ensures A in m.inodes.byPath && m.inodes.byPath[A] == ino
  {
    AWellFormed();
    m := new Mount.SharedState(map[TIP := TREE_A], DEVICE_ONLY, {}, PLAIN);
    ViewOfA(m.view);
    ino := m.inodes.byPath[A];
  }

  /** The inode of a path outlives a pull that deletes it. */
  method PullAway(m: Mount.SharedState, ino: nat)
    requires m.Valid() && m.refs == map[TIP := TREE_A] && m.registry == DEVICE_ONLY
    requires A in m.inodes.byPath && m.inodes.byPath[A] == ino
    modifies m`refs, m`view, m`cache, m.overlay, m.inodes
    ensures m.Valid() && m.refs == map[TIP := EmptyTree] && m.view == ROOT_VIEW
    ensures m.overlay.State() == old(m.overlay.State()) && m.inodes.PathOf(ino) == Some(A)
  {
    assert "a" in TREE_A.children;
    var _ := m.CommitOverTree(TIP, EmptyTree, false, map[]);
    assert m.refs == map[TIP := EmptyTree];
    ViewOfNothing(m.view);
  }

  /** So the kernel can still ask for the mode change: it brings back an empty `a`. */
  method ChmodAfterPull() returns (m: Mount.SharedState)
    ensures m.refs == map[TIP := EmptyTree] && m.view == ROOT_VIEW
    ensures m.overlay.State() == CHMODDED.log
  {
    AWellFormed();
    var ino: nat;
    m, ino := MountA();
    PullAway(m, ino);
    var reply := m.Setattr(ino, Some(MODE), None, {});
    assert reply == Mount.Done;
  }

  // ---- a flush that skips ---------------------------------------------------------

  const WROTE_SAME := AT_A.(log := Log(map[A := Slot(1, StagedFile(DATA))], 1))
  /** A file rewritten with the bytes already committed. */
  const REWRITTEN := WROTE_SAME.(pending := map[TIP := Commit(TREE_A, 1)])

  ghost function Skipped(): World {
    REWRITTEN.(pending := map[])
  }

  ghost function BeforeFlush(): Run {
    Extended(Extended(StartAt(AT_A), Stage(Write(A, [1])), WROTE_SAME), Snapshot(DEVICE), REWRITTEN)
  }

  lemma FreshA()
    ensures IsFreshMount(AT_A, {})
  {
    forall p
      ensures Lookup(A_VIEW, p) == UnionEntry(AT_A.refs, DEVICE_ONLY, p)
      ensures OwningChain(DEVICE_ONLY, p) == DEVICE
    {
      UnionOfA(p);
      DeviceOwnsAll(p);
    }
  }

  lemma RewritesA()
    ensures Next(AT_A, Stage(Write(A, [1])), WROTE_SAME, {})
  {
    assert MissingDirs(A_VIEW, map[], A) == {};
    assert WriteBatch(A_VIEW, map[], A, [1]) == map[A := StagedFile(DATA)];
    StageRestages(AT_A.log, A, StagedFile(DATA));
    assert OpBatch(A_VIEW, map[], Write(A, [1]), map[A := StagedFile(DATA)]);
  }

  lemma RewrittenFlushed(record: Ref -> bool)
    requires !record(TIP)
    ensures IsFlush([REWRITTEN, Skipped()], [TIP], record, {})
  {
    assert REWRITTEN.pending - {TIP} == map[];
  }

  lemma RewrittenLive(q: Path)
    ensures PartFileAt(DEVICE_ONLY, Captured(WROTE_SAME, {}), DEVICE, q) == FileAt(TREE_A, q)
  {
    var w := WROTE_SAME;
    OnlyA(q);
    DeviceOwnsAll(q);
    assert MountOf(DEVICE) + q == q;
    var e := Effective(w.log.slots, MountRoots(DEVICE_ONLY));
    assert LiveAt(w.view, e, {}, q) == if q in Captured(w, {}) then Some(Captured(w, {})[q]) else None;
  }

  lemma SplitsRewritten()
    ensures Next(WROTE_SAME, Snapshot(DEVICE), REWRITTEN, {})
  {
    forall q
      ensures FileAt(TREE_A, q) == PartFileAt(DEVICE_ONLY, Captured(WROTE_SAME, {}), DEVICE, q)
    {
      RewrittenLive(q);
    }
    assert TREE_A.children["a"] != EmptyTree;
    assert IsPart(DEVICE_ONLY, Captured(WROTE_SAME, {}), DEVICE, TREE_A);
  }

  lemma FlushIsReached()
    ensures IsRun(BeforeFlush(), {}) && BeforeFlush().worlds[0] == AT_A
    ensures BeforeFlush().worlds[|BeforeFlush().steps|] == REWRITTEN
  {
    StartIsRun(AT_A, {});
    RewritesA();
    ExtendRun(StartAt(AT_A), AT_A, Stage(Write(A, [1])), WROTE_SAME, {});
    SplitsRewritten();
    ExtendRun(Extended(StartAt(AT_A), Stage(Write(A, [1])), WROTE_SAME), WROTE_SAME, Snapshot(DEVICE), REWRITTEN, {});
  }

  lemma RewrittenStays()
    ensures A in Skipped().log.slots && TIP in PendingRefs(DEVICE_ONLY, Skipped().log.slots)
  {
    DeviceOwnsAll(A);
    assert OwningChain(DEVICE_ONLY, A).refName == TIP;
  }

  /** From a fresh mount: write over `a` the bytes it has, snapshot, flush. The flush
      commits nothing, so the overlay keeps `a` and its chain stays pending. */
  lemma FlushCanLeaveFile(record: Ref -> bool)
    requires !record(TIP)
    ensures IsFreshMount(AT_A, {}) && IsRun(BeforeFlush(), {}) && BeforeFlush().worlds[0] == AT_A
    ensures BeforeFlush().worlds[|BeforeFlush().steps|] == REWRITTEN
    ensures IsFlush([REWRITTEN, Skipped()], [TIP], record, {}) && CutNow(REWRITTEN, [TIP])
    ensures A in Skipped().log.slots && TIP in PendingRefs(DEVICE_ONLY, Skipped().log.slots)
  {
    FreshA();
    FlushIsReached();
    RewrittenFlushed(record);
    RewrittenStays();
  }

  // ---- directory markers ------------------------------------------------------------

  const MARKERS: Slots := map[D := Slot(1, StagedDir(0)), DX := Slot(2, StagedDir(0))]

  lemma MarkersConnected()
    ensures Connected(ROOT_VIEW, MARKERS, Everything)
  {
    assert DX[..1] == D;
    forall p, k | InScope(Everything, Resolve(ROOT_VIEW, MARKERS, p), p) && 0 < k < |p|
      ensures Resolve(ROOT_VIEW, MARKERS, p[..k]).IsDir?
    {
      assert p == DX && k == 1;
    }
  }

  lemma MarkersLeft(owned: Path -> bool)
    requires owned(D)
    ensures Absorbed(MARKERS, 1, owned) == map[DX := MARKERS[DX]]
  {
    assert D != DX;
    forall q | Uncaptured(MARKERS, 1, owned, q)
      ensures q == DX && MARKERS[q].entry.StagedDir?
    {
    }
    assert !Shelters(MARKERS, 1, owned, D);
    assert Survives(MARKERS, 1, owned, DX) && !Survives(MARKERS, 1, owned, D);
  }

  lemma LoneMarkerDangles(left: Slots)
    requires left == map[DX := MARKERS[DX]]
    ensures !Connected(ROOT_VIEW, left, Everything)
  {
    assert DX[..1] == D && D != DX;
    assert InScope(Everything, Resolve(ROOT_VIEW, left, DX), DX);
    assert !Resolve(ROOT_VIEW, left, DX[..1]).IsDir?;
  }

  /** Only files and removals keep a marker above them: a directory made after the
      snapshot can outlive the marker of its parent, although the overlay's own
      description says any surviving entry keeps it. */
  lemma DirMarkersDoNotShelter()
    ensures exists slots: Slots ::
              && Connected(ROOT_VIEW, slots, Everything)
              && var left := Absorbed(slots, 1, OwnedBy(DEVICE_ONLY, TIP));
                 DX in left && D !in left && !Connected(ROOT_VIEW, left, Everything)
  {
    DeviceOwnsAll(D);
    MarkersConnected();
    MarkersLeft(OwnedBy(DEVICE_ONLY, TIP));
    LoneMarkerDangles(Absorbed(MARKERS, 1, OwnedBy(DEVICE_ONLY, TIP)));
    assert D != DX;
  }
}
