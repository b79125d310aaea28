/** The garden's chains: one device chain at the root and shared chains mounted
    below it (crates/softfig-vcs/src/chain.rs). */
module Chains {
  import opened Paths
  import opened Trees

  type Ref = string

  datatype Chain = Chain(refName: Ref, mount: Option<Path>, enabled: bool)

  datatype Registry = Registry(device: Chain, shared: seq<Chain>)

  /** An enabled chain with a mount path: one that is composed and owns paths. */
  predicate Active(c: Chain) {
    c.enabled && c.mount.Some?
  }

  predicate ActiveAt(reg: Registry, i: int) {
    0 <= i < |reg.shared| && Active(reg.shared[i])
  }

  /** What add-time validation guarantees of a registry: the device chain sits at
      the root, mounts are non-empty and pairwise disjoint, every chain has its own ref. */
  ghost predicate WellFormed(reg: Registry) {
    && reg.device.mount == None
    && (forall i | ActiveAt(reg, i) :: reg.shared[i].mount.value != [])
    && (forall i, j | ActiveAt(reg, i) && ActiveAt(reg, j) && i != j ::
          Disjoint(reg.shared[i].mount.value, reg.shared[j].mount.value))
    && (forall i | 0 <= i < |reg.shared| :: reg.shared[i].refName != reg.device.refName)
    && (forall i, j | 0 <= i < |reg.shared| && 0 <= j < |reg.shared| && i != j ::
          reg.shared[i].refName != reg.shared[j].refName)
  }

  /** `path` lies at or under the mount of shared chain `i`, which is enabled. */
  predicate Claims(reg: Registry, i: int, path: Path) {
    ActiveAt(reg, i) && StartsWith(path, reg.shared[i].mount.value)
  }

  /** `c` may answer for `path`: an active chain whose mount claims it and is as
      deep as any other claimant, or the device chain when nobody claims it. */
  ghost predicate IsOwner(reg: Registry, path: Path, c: Chain) {
    || (exists i ::
          && Claims(reg, i, path) && c == reg.shared[i]
          && forall j | Claims(reg, j, path) :: |reg.shared[j].mount.value| <= |c.mount.value|)
    || (c == reg.device && forall i :: !Claims(reg, i, path))
  }

  /** `owning_chain`: the deepest enabled mount prefix, the last one on a tie. */
  function OwningChain(reg: Registry, path: Path): Chain {
    match BestClaim(reg, path, |reg.shared|)
    case Some(i) => reg.shared[i]
    case None => reg.device
  }

  /** The best claim among the first `n` shared chains. */
  function BestClaim(reg: Registry, path: Path, n: nat): (best: Option<nat>)
    requires n <= |reg.shared|
    ensures best.Some? ==>
              && best.value < n && Claims(reg, best.value, path)
              && forall j | 0 <= j < n && Claims(reg, j, path) ::
                   && |reg.shared[j].mount.value| <= |reg.shared[best.value].mount.value|
                   && (j > best.value ==> |reg.shared[j].mount.value| < |reg.shared[best.value].mount.value|)
    ensures best.None? ==> forall j | 0 <= j < n :: !Claims(reg, j, path)
  {
    if n == 0 then None
    else
      var rest := BestClaim(reg, path, n - 1);
      if Claims(reg, n - 1, path)
         && (rest.None? || |reg.shared[n - 1].mount.value| >= |reg.shared[rest.value].mount.value|)
      then Some(n - 1)
      else rest
  }

  lemma OwningChainOwns(reg: Registry, path: Path)
    ensures IsOwner(reg, path, OwningChain(reg, path))
  {
    var best := BestClaim(reg, path, |reg.shared|);
    if best.Some? {
      assert Claims(reg, best.value, path);
    }
  }

  /** The loop the source runs, against that definition. */
  method FindOwningChain(reg: Registry, path: Path) returns (owner: Chain)
    ensures owner == OwningChain(reg, path)
    ensures IsOwner(reg, path, owner)
  {
    var best: Option<nat> := None;
    var bestDepth := 0;
    for i := 0 to |reg.shared|
      invariant best == BestClaim(reg, path, i)
      invariant bestDepth == if best.Some? then |reg.shared[best.value].mount.value| else 0
    {
      var c := reg.shared[i];
      if c.enabled && c.mount.Some? && StartsWith(path, c.mount.value) {
        var depth := |c.mount.value|;
        if depth >= bestDepth {
          bestDepth := depth;
          best := Some(i);
        }
      }
    }
    OwningChainOwns(reg, path);
    owner := if best.Some? then reg.shared[best.value] else reg.device;
  }

  /** Disjoint mounts leave at most one claimant, so the owner is the one. */
  lemma SoleClaimOwns(reg: Registry, i: nat, path: Path)
    requires WellFormed(reg) && Claims(reg, i, path)
    ensures OwningChain(reg, path) == reg.shared[i]
    ensures forall j | Claims(reg, j, path) :: j == i
  {
    forall j | Claims(reg, j, path)
      ensures j == i
    {
      PrefixesCompare(reg.shared[i].mount.value, reg.shared[j].mount.value, path);
    }
    assert Claims(reg, BestClaim(reg, path, |reg.shared|).value, path);
  }

  /** Ref names identify chains: a path is owned by the ref of shared chain `i`
      exactly when that chain claims it. */
  lemma OwnerByRef(reg: Registry, path: Path, i: nat)
    requires WellFormed(reg) && i < |reg.shared|
    ensures OwningChain(reg, path).refName == reg.shared[i].refName <==> Claims(reg, i, path)
  {
    if Claims(reg, i, path) {
      SoleClaimOwns(reg, i, path);
    }
  }

  /** The device chain owns exactly what no mount claims. */
  lemma OwnedByDevice(reg: Registry, path: Path)
    requires WellFormed(reg)
    ensures OwningChain(reg, path).refName == reg.device.refName <==> forall i :: !Claims(reg, i, path)
  {
    if i :| Claims(reg, i, path) {
      SoleClaimOwns(reg, i, path);
    }
  }

  /** The prefix a chain's own tree is relative to. */
  function MountOf(c: Chain): Path {
    if c.mount.Some? then c.mount.value else []
  }

  lemma OwnerPrefix(reg: Registry, path: Path)
    requires WellFormed(reg)
    ensures StartsWith(path, MountOf(OwningChain(reg, path)))
  {
  }

  /** The mount roots of enabled shared chains: the live graft points. */
  function MountRoots(reg: Registry): (roots: set<Path>)
    ensures forall p :: p in roots <==> exists i :: ActiveAt(reg, i) && reg.shared[i].mount.value == p
  {
    set i | 0 <= i < |reg.shared| && ActiveAt(reg, i) :: reg.shared[i].mount.value
  }

  predicate IsEnabledMountRoot(reg: Registry, path: Path) {
    path in MountRoots(reg)
  }

  /** `enabled_chains`: the device chain, then every enabled shared chain. */
  function EnabledChains(reg: Registry): seq<Chain> {
    [reg.device] + EnabledPrefix(reg.shared)
  }

  function EnabledPrefix(shared: seq<Chain>): seq<Chain> {
    if shared == [] then []
    else
      var rest := EnabledPrefix(shared[..|shared| - 1]);
      if shared[|shared| - 1].enabled then rest + [shared[|shared| - 1]] else rest
  }

  lemma {:induction false} EnabledPrefixHas(shared: seq<Chain>, c: Chain)
    ensures c in EnabledPrefix(shared) <==> c in shared && c.enabled
  {
    if shared != [] {
      EnabledPrefixHas(shared[..|shared| - 1], c);
      assert shared == shared[..|shared| - 1] + [shared[|shared| - 1]];
    }
  }

  lemma {:induction false} EnabledPrefixDistinct(shared: seq<Chain>)
    requires forall i, j | 0 <= i < |shared| && 0 <= j < |shared| && i != j :: shared[i].refName != shared[j].refName
    ensures forall i, j | 0 <= i < |EnabledPrefix(shared)| && 0 <= j < |EnabledPrefix(shared)| && i != j ::
              EnabledPrefix(shared)[i].refName != EnabledPrefix(shared)[j].refName
  {
    if shared != [] {
      var init := shared[..|shared| - 1];
      EnabledPrefixDistinct(init);
      forall i | 0 <= i < |EnabledPrefix(init)|
        ensures EnabledPrefix(init)[i].refName != shared[|shared| - 1].refName
      {
        EnabledPrefixHas(init, EnabledPrefix(init)[i]);
      }
    }
  }

  /** Refs tell the enabled chains apart, and every owner is one of them. */
  lemma EnabledChainsDistinct(reg: Registry)
    requires WellFormed(reg)
    ensures forall i, j | 0 <= i < |EnabledChains(reg)| && 0 <= j < |EnabledChains(reg)| && i != j ::
              EnabledChains(reg)[i].refName != EnabledChains(reg)[j].refName
    ensures forall p :: OwningChain(reg, p) in EnabledChains(reg)
  {
    EnabledPrefixDistinct(reg.shared);
    forall i | 0 <= i < |EnabledPrefix(reg.shared)|
      ensures EnabledPrefix(reg.shared)[i].refName != reg.device.refName
    {
      EnabledPrefixHas(reg.shared, EnabledPrefix(reg.shared)[i]);
    }
    forall p
      ensures OwningChain(reg, p) in EnabledChains(reg)
    {
      EnabledPrefixHas(reg.shared, OwningChain(reg, p));
    }
  }

  // ---- the write router ------------------------------------------------------

  /** The file chain `c` must store at `q` when the working tree holds `files`: its
      own file at the mounted path. A file exactly at the mount has no relative name. */
  function PartFileAt(reg: Registry, files: map<Path, FileData>, c: Chain, q: Path): Option<FileData> {
    var p := MountOf(c) + q;
    if q != [] && p in files && OwningChain(reg, p) == c then Some(Masked(files[p])) else None
  }

  /** A commit snapshot for chain `c`: exactly the files it owns, no empty directories. */
  ghost predicate IsPart(reg: Registry, files: map<Path, FileData>, c: Chain, part: Node) {
    && part.Dir? && NoEmptyDirs(part)
    && forall q :: FileAt(part, q) == PartFileAt(reg, files, c, q)
  }

  /** One more file changes the answer only for its owner, and only at its stripped path. */
  lemma PartGrows(reg: Registry, files: map<Path, FileData>, path: Path, data: FileData, c: Chain, q: Path)
    ensures PartFileAt(reg, files[path := data], c, q) ==
            if q != [] && MountOf(c) + q == path && OwningChain(reg, path) == c
            then Some(Masked(data))
            else PartFileAt(reg, files, c, q)
  {
  }

  /** One routing step: inserting the stripped path extends the owner's part. */
  lemma RouteOne(reg: Registry, files: map<Path, FileData>, path: Path, data: FileData, part: Node)
    requires WellFormed(reg) && path !in files
    requires PrefixFree(files.Keys + {path})
    requires IsPart(reg, files, OwningChain(reg, path), part)
    ensures StartsWith(path, MountOf(OwningChain(reg, path)))
    ensures IsPart(reg, files[path := data], OwningChain(reg, path),
                   InsertFile(part, Strip(path, MountOf(OwningChain(reg, path))), data))
  {
    var c := OwningChain(reg, path);
    OwnerPrefix(reg, path);
    var m, rel := MountOf(c), Strip(path, MountOf(c));
    InsertKeepsNoEmptyDirs(part, rel, data);
    if BlockedByFile(part, rel) {
      var k :| 0 < k < |rel| && FileAt(part, rel[..k]).Some?;
      assert m + rel[..k] in files && StrictlyUnder(path, m + rel[..k]);
    }
    forall q
      ensures FileAt(InsertFile(part, rel, data), q) == PartFileAt(reg, files[path := data], c, q)
    {
      InsertFileAt(part, rel, data, q);
      PartGrows(reg, files, path, data, c, q);
      assert FileAt(part, q) == PartFileAt(reg, files, c, q);
      assert m + q == path <==> q == rel by { StripAppend(m, q); }
      if StrictlyUnder(q, rel) {
        assert StrictlyUnder(m + q, path);
        assert m + q !in files.Keys + {path};
      }
    }
  }

  lemma RouteElsewhere(reg: Registry, files: map<Path, FileData>, path: Path, data: FileData, c: Chain, part: Node)
    requires IsPart(reg, files, c, part) && OwningChain(reg, path) != c
    ensures IsPart(reg, files[path := data], c, part)
  {
    forall q
      ensures FileAt(part, q) == PartFileAt(reg, files[path := data], c, q)
    {
      PartGrows(reg, files, path, data, c, q);
      assert FileAt(part, q) == PartFileAt(reg, files, c, q);
    }
  }

  lemma EmptyIsPart(reg: Registry, c: Chain)
    ensures IsPart(reg, map[], c, EmptyTree)
  {
    forall q
      ensures FileAt(EmptyTree, q) == PartFileAt(reg, map[], c, q)
    {
    }
  }

  /** `split_snapshot`: route every file of the unified tree to its owner's
      snapshot, one snapshot per enabled chain. The order files are visited in
      does not matter. */
  method SplitSnapshot(reg: Registry, files: map<Path, FileData>) returns (snaps: seq<(Ref, Node)>)
    requires WellFormed(reg) && PrefixFree(files.Keys)
    ensures |snaps| == |EnabledChains(reg)|
    ensures forall k | 0 <= k < |snaps| ::
              && snaps[k].0 == EnabledChains(reg)[k].refName
              && IsPart(reg, files, EnabledChains(reg)[k], snaps[k].1)
  {
    var chains := EnabledChains(reg);
    EnabledChainsDistinct(reg);
    snaps := seq(|chains|, k requires 0 <= k < |chains| => (chains[k].refName, EmptyTree));
    var todo := files.Keys;
    ghost var done: map<Path, FileData> := map[];
    forall k | 0 <= k < |snaps|
      ensures IsPart(reg, done, chains[k], snaps[k].1)
    {
      EmptyIsPart(reg, chains[k]);
    }
    while todo != {}
      invariant todo <= files.Keys && done.Keys == files.Keys - todo
      invariant forall p | p in done :: done[p] == files[p]
      invariant |snaps| == |chains|
      invariant forall k | 0 <= k < |snaps| ::
                  snaps[k].0 == chains[k].refName && IsPart(reg, done, chains[k], snaps[k].1)
    {
      var path :| path in todo;
      var chain := FindOwningChain(reg, path);
      OwnerPrefix(reg, path);
      var k :| 0 <= k < |chains| && chains[k] == chain;
      RouteOne(reg, done, path, files[path], snaps[k].1);
      forall j | 0 <= j < |snaps| && j != k
        ensures IsPart(reg, done[path := files[path]], chains[j], snaps[j].1)
      {
        RouteElsewhere(reg, done, path, files[path], chains[j], snaps[j].1);
      }
      snaps := snaps[k := (snaps[k].0, InsertFile(snaps[k].1, Strip(path, MountOf(chain)), files[path]))];
      todo, done := todo - {path}, done[path := files[path]];
    }
    assert done == files;
    forall k | 0 <= k < |snaps|
      ensures Prune(snaps[k].1) == snaps[k].1
    {
      PruneIsIdentity(snaps[k].1);
    }
    snaps := seq(|snaps|, k requires 0 <= k < |snaps| => (snaps[k].0, Prune(snaps[k].1)));
  }

  /** Every file of the working tree is stored by exactly one chain, its owner,
      unless it sits exactly at an enabled mount: then no chain stores it. */
  lemma EachFileInOnePart(reg: Registry, files: map<Path, FileData>, path: Path, c: Chain, q: Path)
    requires WellFormed(reg) && path in files && path != []
    requires MountOf(c) + q == path
    ensures PartFileAt(reg, files, c, q) ==
            if c == OwningChain(reg, path) && !IsEnabledMountRoot(reg, path)
            then Some(Masked(files[path])) else None
  {
    if c == OwningChain(reg, path) && IsEnabledMountRoot(reg, path) {
      var i :| ActiveAt(reg, i) && reg.shared[i].mount.value == path;
      SoleClaimOwns(reg, i, path);
      assert q == [];
    }
  }
}
