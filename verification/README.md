# softfig verification model

A Dafny model of the four stateful cores of softfig and proofs of what they promise:

- **The union mount** (`crates/softfig-fuse`, `crates/softfig-vcs`). The mount shows committed
  trees, one per chain, with shared chains grafted at their mounts, under an in-memory overlay of
  files, directory markers and removals stamped with a generation. Commits are split by owning
  chain, land later, and drop from the overlay only what they captured. The main results: landing
  a commit is invisible on the working tree exactly when every surviving staged file keeps
  directories above it; over any run of staging, snapshots, landings, pulls, registry swaps and
  failed recompositions a staged write leaves the overlay only by being staged over or by being in
  its owner's landed tree, as long as every snapshot of its chain reaches it and no swap hands it
  over captured, and a snapshot reaches a write exactly when it is not at a mount root and nothing
  staged above it is a file or a removal; write, create, mkdir, remove and rename are exact updates
  of the live files, and a chmod, a new size or a partial write is one exactly under conditions
  that are given; over any run of allowed staging operations nothing is orphaned, and what a
  rename, a pull or a swap must find to orphan nothing is given exactly; every read returns what a
  read without the cache would; splitting and grafting are inverse.
- **The resumable account move** (`claude-login migrate`). Run one filesystem step at a time and
  cut after any step, any number of times, it never loses the credential and finishes when re-run;
  exactly when a run goes through, and that a refused one has touched nothing.
- **Deploy plan and apply** (`crates/softfig-deploy`). Cut anywhere and started again, a deploy
  reaches the same targets, caches and backups as an uncut run; afterwards it is a fixed point.
  However it is cut, it changes nothing it does not own without force, and loses nothing with it.
  The copy stamp is one line more, can be undone and is recognised under an exact condition.
- **Days to civil dates.** The closed form, signed and unsigned, against the calendar of
  section 5.7 and Appendix C of RFC 3339, for every integer day.

`dafny verify dfyconfig.toml` checks everything.

## How the model is laid out

| file | models |
|---|---|
| `Paths` | repo-relative paths as sequences of components |
| `Trees` | `WalkSnapshot`: insertion, pruning, the file map of a tree |
| `Chains` | `ChainRegistry`: ownership, enabled chains, splitting a snapshot |
| `Views` | `TreeView`: building, grafting, the union of all chains |
| `Overlays` | `Overlay`: staging, generations, two-pass absorption |
| `Live` | what (view, overlay) resolves to; the three tree walks |
| `Staging` | what each staging operation does to the live files |
| `Protocol` | the mount as a state machine, its invariant, invisibility of landing |
| `Reads` | `read_bytes` with and without its cache, over runs; what a chmod or a write reads back |
| `Durability` | what happens to a staged file or removal over a run; flushing |
| `Limits` | runs and states in which a side condition fails |
| `Inodes` | the inode map |
| `Mount` | class `SharedState`: every operation updating the shared state in place |
| `Serving` | any sequence of requests on it, each with the protocol steps it takes |
| `Migrate` | the account move as a machine with a step budget |
| `Utf8`, `Stamp` | well-formed UTF-8 (section 4 of RFC 3629) and the copy stamp |
| `Plans`, `Apply` | what plan and apply make of a dot; the same on a filesystem, step by step |
| `Calendar` | the calendar and the closed form |

Two reading aids. `Restaged(before, after, batch)` says the overlay went from `before` to `after`
by staging the entries of `batch` in some order with fresh generations; the source visits hash maps
and lists in an order of their own, and the contracts hold for any. A `budget` in `Migrate.Machine`
and `Apply.Deployer` is the number of filesystem steps before the process dies; it ranges over all
numbers, so a postcondition that does not mention it holds wherever the run is cut.

## What turned out to need a condition

- Landing is not invisible in general. A directory that only the old view supplied, above a write
  staged after the snapshot, has no marker (fs.rs:678-680) and can vanish with the landing.
  `Protocol.LandingInvisibleIff` gives the exact condition, `Limits.LandingCanOrphan` a world.
- `stage_write` below a path staged as removed or as a file succeeds (fs.rs:675-677), and the
  bytes are lost: no snapshot reaches them, the landing of their chain drops them, no tree holds
  them. The same happens to a write at a live mount root. `Staging.WriteIsLiveIff`,
  `Durability.WriteLandsIff`, `Durability.SnapshotHoldsIff`; `Limits.WriteUnderRemovedIsLost` is a
  run from a fresh mount.
- A rename onto a directory with entries, which POSIX refuses, merges the two
  (fs.rs:1280-1345, 570-615), and a file that lands on a directory there cuts off everything in it.
  `Staging.RenameIsExact` says what is left, `Staging.RenameReplacesIff` when the destination holds
  just the source, `Staging.RenameConnectedIff` when nothing is cut off;
  `Limits.RenameMergesAndCuts` is the input.
- A kernel `write` splices into what a reader sees of the file (fs.rs:1147-1159), so writing part
  of a sealed file replaces the rest by the placeholder. `Reads.KernelWriteIff`,
  `Reads.KernelResizeIff`, `Limits.WriteLosesSealed`.
- A chmod is not only a change of mode. On an absent path in a live directory it makes a file, and
  it can be asked for one: a pull that deletes a file keeps its inode (fs.rs:134-143). On a file it
  stages what is read back (fs.rs:1411-1414, lib.rs:267-271): the placeholder of a sealed file, the
  redacted bytes of another, nothing when the object cannot be read.
  `Staging.ChmodKeepsPathsIff`, `Reads.KernelChmodIff`, `Reads.HandleChmodIff`,
  `Limits.ChmodMakesFile`, `Limits.ChmodAfterPull`, `Limits.ChmodLosesSealed`.
- The snapshot is split under one registry and absorbed under another (fs.rs:141). If a swap in
  between hands a captured path to the landing chain, the write is dropped and no tree holds it.
  Exactly the files the snapshot reached and that chain owned already are in its tree.
  `Durability.CaptureSurvivesSwapIff`, `Limits.SwapCanLoseWrite`.
- A commit whose tree equals the one its ref holds fires no rotation (repo.rs:443-477), so a
  flush leaves its captured entries staged. `Durability.FlushDrainsIff`, `Limits.FlushCanLeaveFile`;
  what stays is already committed (`Durability.SkippedIsCommitted`).
- The overlay's documentation says a directory marker is kept while any surviving entry is beneath
  it; the code keeps it only above surviving files and removals (overlay.rs:111-133). The model
  follows the code; `Limits.DirMarkersDoNotShelter` shows the difference.
- An enabled chain whose ref has no commit owns its mount but grafts nothing, so the view falls
  back to the device tree there (tree_view.rs:80-95). The invariant therefore asks that the device
  tree holds nothing under such a mount.
- Renaming onto a path that already has an inode leaves the overwritten inode behind
  (inodes.rs:68-73). `Inodes.RenameBijectiveIff`.
- A migrate takes anything staged under the credential's name for a file it moved earlier, a link
  included, and the slot then holds that (cmd_claude_login.rs:725-738, 787-793). The slot holds a
  regular credential exactly when there was one at home or a regular one was staged
  (`Migrate.Machine.Run`); `Migrate.StagedLinkArrives` is the input.
- A stamped text copy is not recognised when byte 512 of the output falls inside a character, or
  when a long shebang line leaves no room for the marker. `Stamp.TextRecognisedIff`,
  `Stamp.StampCanBeMissed`; a changed source is then a conflict (`Plans.StaleTextCopyIff`).
- A forced deploy renames over whatever an earlier backup left, so only the latest backup is kept
  (apply.rs:150-161). `Plans.DotSettles` says what the backup holds.

## Model

| member | source | states |
|---|---|---|
| Trees.InsertFileAt | crates/softfig-vcs/src/walk.rs:270-297 | for every tree and path: the inserted file appears with its masked mode, whatever was under it goes, every other file stays; nothing changes for the root or when a file is in the way |
| Trees.InsertHolds | crates/softfig-vcs/src/walk.rs:90-94 | inserting a path that is no prefix of another adds exactly that file to the tree's file map |
| Trees.InsertKeepsNoEmptyDirs | crates/softfig-vcs/src/walk.rs:270-297 | insertion leaves no empty directory behind |
| Trees.PruneMakesNoEmptyDirs | crates/softfig-vcs/src/walk.rs:302-313 | after pruning no directory is empty |
| Trees.PruneKeepsFiles | crates/softfig-vcs/src/walk.rs:302-313 | pruning changes no file |
| Trees.PruneIsIdentity | crates/softfig-vcs/src/walk.rs:302-313 | on a tree without empty directories pruning does nothing |
| Trees.DirIffFileUnder | crates/softfig-vcs/src/walk.rs:105-112 | in a pruned tree a directory exists exactly when a file is under it |
| Trees.SameFilesSameTree | crates/softfig-vcs/src/walk.rs:302-313 | two pruned trees that hold the same files are equal |
| Trees.FilesOfHeld | crates/softfig-vcs/src/walk.rs:140-146 | the file list of a tree is exactly the map it was built from |
| Chains.FindOwningChain | crates/softfig-vcs/src/chain.rs:145-166 | the loop picks the chain that owns the path: the longest enabled mount at or above it, else the device chain |
| Chains.OwningChainOwns | crates/softfig-vcs/src/chain.rs:145-166 | the recursive definition meets the declarative one, for every registry |
| Chains.SoleClaimOwns | crates/softfig-vcs/src/chain.rs:145-166 | with non-nested mounts a claimant is the only one and the owner |
| Chains.OwnerByRef | crates/softfig-vcs/src/chain.rs:145-166 | the owner has a shared chain's ref exactly when that chain claims the path |
| Chains.OwnedByDevice | crates/softfig-vcs/src/chain.rs:145-166 | the device chain owns exactly what no enabled mount claims |
| Chains.EnabledChainsDistinct | crates/softfig-vcs/src/chain.rs:211-213 | enabled chains have distinct refs and every owner is among them |
| Chains.PartGrows | crates/softfig-vcs/src/chain.rs:256-283 | one more file changes only its owner's part, only at its stripped path |
| Chains.RouteOne | crates/softfig-vcs/src/chain.rs:256-283 | one routing step extends the owner's part by exactly that file |
| Chains.SplitSnapshot | crates/softfig-vcs/src/chain.rs:256-283 | one snapshot per enabled chain, each holding exactly the files its chain owns at their stripped paths, whatever the visiting order |
| Chains.EachFileInOnePart | crates/softfig-vcs/src/chain.rs:256-283 | every file is stored by its owner and by no other chain; a file exactly at an enabled mount by none |
| Views.TreeView.Empty | crates/softfig-fuse/src/tree_view.rs:39-52 | a view of the root directory alone |
| Views.TreeView.Build | crates/softfig-fuse/src/tree_view.rs:54-68 | the view shows every row of the tree, nested ones included, and nothing else |
| Views.TreeView.Expand | crates/softfig-fuse/src/tree_view.rs:150-182 | exactly the paths of the subtree are entered, everything else keeps its entry |
| Views.TreeView.SynthesizeAncestors | crates/softfig-fuse/src/tree_view.rs:105-115 | exactly the missing directories between the root and the prefix appear |
| Views.TreeView.InsertUnder | crates/softfig-fuse/src/tree_view.rs:115-121 | the other view's entries appear re-keyed under the prefix, over what was there |
| Views.TreeView.Graft | crates/softfig-fuse/src/tree_view.rs:102-122 | the prefix shows the other view and nothing of the old, missing ancestors appear, the rest stays |
| Views.TreeViewClosed | crates/softfig-fuse/src/tree_view.rs:54-68 | in a view of one tree every entry has directory parents |
| Views.GraftExtendsUnion | crates/softfig-fuse/src/tree_view.rs:80-95 | one more graft turns the union of the first n chains into that of the first n+1 |
| Views.GraftLeavesRest | crates/softfig-fuse/src/tree_view.rs:102-122 | away from the new mount only directories leading to it can appear |
| Views.BuildUnion | crates/softfig-fuse/src/tree_view.rs:76-98 | pointwise meaning: the grafted owner's entry at the stripped path, else the device entry, else a synthesised ancestor |
| Views.UnionIgnoresOrder | crates/softfig-fuse/src/tree_view.rs:76-98 | two registries with the same active chains in any order compose the same view |
| Views.UnionShowsStoredFiles | crates/softfig-fuse/src/tree_view.rs:76-98 | the view's file at a path is what the owning chain, or the device tree, stores there |
| Views.UnionClosedIff | crates/softfig-fuse/src/tree_view.rs:76-98 | the union is prefix-closed with directory parents exactly when no device file sits above a graft |
| Views.UnionParentIsDir | crates/softfig-fuse/src/tree_view.rs:76-98 | then every ancestor of every entry is a directory |
| Views.SplitThenGraft | crates/softfig-fuse/src/tree_view.rs:76-122 | splitting by owner, committing every part and composing gives back the same file map, except files exactly at a mount root |
| Views.SplitThenGraftClosed | crates/softfig-fuse/src/tree_view.rs:76-122 | ... as a proper tree exactly when no file sits above a mount |
| Overlays.Overlay.constructor | crates/softfig-fuse/src/overlay.rs:58-60 | nothing staged, generation zero |
| Overlays.Overlay.StageEntry | crates/softfig-fuse/src/overlay.rs:73-76 | the counter goes up by one and stamps the entry; no other slot changes |
| Overlays.Overlay.InsertFile | crates/softfig-fuse/src/overlay.rs:78-80 | stages a file entry |
| Overlays.Overlay.InsertDir | crates/softfig-fuse/src/overlay.rs:82-84 | stages a directory marker |
| Overlays.Overlay.MarkRemoved | crates/softfig-fuse/src/overlay.rs:86-88 | stages a removal, also over nothing |
| Overlays.Overlay.RemoveAbsorbed | crates/softfig-fuse/src/overlay.rs:111-133 | the two passes keep an entry exactly when it is newer than the cutoff, or not owned, or a marker strictly above a surviving file or removal |
| Overlays.MarkerGoesIff | crates/softfig-fuse/src/overlay.rs:119-131 | by what is left: a directory marker goes exactly when it was captured, is owned and no file or removal is left below it |
| Overlays.OthersGoIff | crates/softfig-fuse/src/overlay.rs:111-118 | what is left is as it was, and a file or removal goes exactly when it was captured and is owned |
| Overlays.RestagedCompose | crates/softfig-fuse/src/overlay.rs:73-76 | batches of stagings compose, the later entry winning with a newer generation |
| Overlays.AbsorbTwice | crates/softfig-fuse/src/overlay.rs:111-133 | two absorptions of one chain collapse to the later cutoff; absorption is idempotent |
| Overlays.AbsorbCommutes | crates/softfig-fuse/src/overlay.rs:111-133 | on files and removals absorptions of any two chains commute, and keep what neither captured |
| Overlays.AbsorbOrderShowsInDirs | crates/softfig-fuse/src/overlay.rs:111-133 | on directory markers they need not |
| Live.CollectFiles | crates/softfig-fuse/src/fs.rs:778-834 | terminates and lists each live, non-ignored file once and nothing else; a stray file at an enabled mount root neither shows nor shadows the graft |
| Live.CollectedStep | crates/softfig-fuse/src/fs.rs:778-834 | handling one more child extends what is collected by exactly what lies at or under it |
| Live.LiveFilesPrefixFree | crates/softfig-fuse/src/fs.rs:778-834 | no live file runs through another |
| Live.CollectLiveEntries | crates/softfig-fuse/src/fs.rs:729-760 | every live entry strictly under the directory once, files and directories apart |
| Live.ReadDirEntries | crates/softfig-fuse/src/fs.rs:481-508 | the listing is exactly the children that resolve to something, with their kind |
| Live.StoredAll | crates/softfig-fuse/src/fs.rs:225-237 | storing all that was collected stores exactly the live files |
| Live.StoreOne | crates/softfig-fuse/src/fs.rs:225-237 | one more collected file goes into the snapshot with nothing in its way |
| Staging.ConnectedIffLiveIsResolved | crates/softfig-fuse/src/fs.rs:701-710 | no staged file is orphaned exactly when what a path resolves to is what the walk finds |
| Staging.BatchKeepsConnected | crates/softfig-fuse/src/fs.rs:670-683 | when staging a batch leaves no orphan, for every operation |
| Staging.WriteKeepsConnected | crates/softfig-fuse/src/fs.rs:513-519 | after a write every overlay file still has directories above it, and the written path is reachable |
| Staging.WriteIsExact | crates/softfig-fuse/src/fs.rs:513-519 | the path holds the content under the mode the live file had, else the default; no other live file changes |
| Staging.WriteIsLiveIff | crates/softfig-fuse/src/fs.rs:670-683 | in every state: a written file is live exactly when no ancestor is staged as a file or removed |
| Staging.CreateKeepsConnected | crates/softfig-fuse/src/fs.rs:1084-1125 | creating below existing directories orphans nothing |
| Staging.CreateIsExact | crates/softfig-fuse/src/fs.rs:1084-1125 | exactly the created file appears |
| Staging.FileEntryIsExact | crates/softfig-fuse/src/fs.rs:537-550 | in every state, for any bytes: a file entry staged where no directory is shows exactly when everything above it is a directory; no other path changes its answer |
| Staging.ChmodKeepsPathsIff | crates/softfig-fuse/src/fs.rs:537-550 | a mode change keeps the set of live paths exactly when the path is a file, or ignored, or has no directory to show in |
| Staging.ChmodKeepsContentIff | crates/softfig-fuse/src/fs.rs:537-550 | on a live file it changes the masked mode alone exactly when the bytes it was given are the file's |
| Staging.MkdirKeepsConnected | crates/softfig-fuse/src/fs.rs:1169-1219 | a new directory orphans nothing |
| Staging.MkdirStartsEmpty | crates/softfig-fuse/src/fs.rs:1169-1219 | in either scope: a directory made where nothing resolves starts with nothing in it, whatever the committed tree has there |
| Staging.RemoveKeepsConnected | crates/softfig-fuse/src/fs.rs:629-636 | a removal orphans nothing |
| Staging.RemoveIsExact | crates/softfig-fuse/src/fs.rs:629-636 | nothing at or under the path is live afterwards, every other path resolves as before, in every state |
| Staging.RemoveLiveFiles | crates/softfig-fuse/src/fs.rs:629-636 | the same on the map of live files |
| Staging.LoneRemovalIsRemove | crates/softfig-fuse/src/fs.rs:1221-1278 | unlinking a file and removing an empty directory are removals of exactly one entry |
| Staging.RenameKeepsConnected | crates/softfig-fuse/src/fs.rs:570-615 | a rename that puts no file on a directory orphans nothing, the destination taken or not |
| Staging.RenameIsExact | crates/softfig-fuse/src/fs.rs:570-615 | whatever the destination holds: everything at or under `from` is live under `to` with its bytes and mode, nothing stays, what else is under `to` stays unless a moved file lands above it, the rest is unchanged |
| Staging.RenameReplacesIff | crates/softfig-fuse/src/fs.rs:1280-1345 | the destination holds just what the source held exactly when every live file there gives way to something moved |
| Staging.RenameConnectedIff | crates/softfig-fuse/src/fs.rs:570-615 | no file is cut off exactly when no live file stays under the image of a moved one |
| Protocol.FreshMountIsGood | crates/softfig-fuse/src/fs.rs:909-946 | a freshly composed mount satisfies the invariant |
| Protocol.StageKeepsGood | crates/softfig-fuse/src/fs.rs:513-636 | every staging operation keeps it: what a snapshot captured is untouched, what is new is newer |
| Protocol.SnapshotKeepsGood | crates/softfig-fuse/src/fs.rs:183-243 | a snapshot keeps it and changes nothing visible |
| Protocol.CapturedIsWorking | crates/softfig-fuse/src/fs.rs:183-243 | a snapshot captures the working tree as it is |
| Protocol.StoredAfterLanding | crates/softfig-vcs/src/repo.rs:665-698 | what every path stores once one chain's commit has landed |
| Protocol.LandingKeepsResolved | crates/softfig-fuse/src/fs.rs:103-144 | landing and rotation never change what a non-ignored path resolves to |
| Protocol.RotationConnectedIff | crates/softfig-fuse/src/fs.rs:103-144 | after them no file is orphaned exactly when every surviving staged file keeps directories above it in the new view |
| Protocol.LandingInvisibleIff | crates/softfig-fuse/src/fs.rs:103-144 | the working tree is unchanged by a landing exactly under that condition |
| Protocol.RotationKeepsTracking | crates/softfig-fuse/src/fs.rs:84-102 | one chain's landing leaves the other chains' commits in flight consistent |
| Protocol.RotationKeepsGood | crates/softfig-fuse/src/fs.rs:103-144 | a sheltered landing keeps the invariant |
| Protocol.StalledLandingKeepsGood | crates/softfig-fuse/src/fs.rs:117-126 | a failed recomposition or a skipped commit changes nothing visible and keeps the invariant |
| Protocol.OpsOrphanNothing | crates/softfig-fuse/src/fs.rs:513-659 | over every run of allowed operations from a composed view nothing is orphaned, directories and ignored entries included |
| Protocol.RemovedHidesBelow | crates/softfig-fuse/src/fs.rs:629-659 | over every such run all the view still has under a removed path is removed itself |
| Protocol.RemadeDirIsEmpty | crates/softfig-fuse/src/fs.rs:1169-1219 | over every such run a directory made where nothing is has no children and nothing below |
| Protocol.MkdirHoldsNoFile | crates/softfig-fuse/src/fs.rs:1169-1219 | in every good world, rotations behind it or not, such a directory holds no file a commit could pick up |
| Protocol.RecomposedConnectedIff | crates/softfig-fuse/src/fs.rs:103-144 | a recomposition under other refs or another registry cuts no file off exactly when, in the state before, staged files keep directories above them in the new union and stored files have nothing but directories staged above them |
| Protocol.PullKeepsGood | crates/softfig-vcs/src/repo.rs:501-534 | a recomposed pull of a chain with no commit in flight keeps the invariant when the state before passes that test; only unstaged files of that chain can look different |
| Protocol.SwapKeepsGood | crates/softfig-fuse/src/fs.rs:335-342 | a recomposed swap that touches no commit in flight keeps it on the same test; only unstaged files stored elsewhere now can look different |
| Protocol.RunStaysGood | crates/softfig-fuse/src/fs.rs:84-144 | over every run of careful steps, pulls and swaps included, the invariant holds |
| Protocol.OnlyTreeChangesShow | crates/softfig-fuse/src/fs.rs:84-144 | over every such run only stagings, pulls and swaps change the working tree: no snapshot, landing or aborted commit does |
| Reads.AnswerIsRead | crates/softfig-fuse/src/fs.rs:1561-1614 | with a current cache `read_bytes` fails exactly when it must fetch an unreadable object and otherwise returns the uncached read; the cache stays current |
| Reads.ReadIsShown | crates/softfig-fuse/src/fs.rs:1561-1614 | a read shows a file's placeholder or redacted bytes, and of what is no file nothing, but for a seal on a path the overlay does not mention |
| Reads.StepKeepsCurrent | crates/softfig-fuse/src/fs.rs:103-108 | every read and every protocol step keeps the cache current |
| Reads.ReadsAreUncached | crates/softfig-fuse/src/fs.rs:1561-1614 | the same at every point of every run of reads, stagings, snapshots, landings, pulls, swaps and failed recompositions |
| Reads.KernelChmodIff | crates/softfig-fuse/src/fs.rs:1405-1419 | a chmod through the kernel keeps a live file's content exactly when a sealed file equals its placeholder, a readable one has nothing to redact, an unreadable one is empty |
| Reads.KernelWriteIff | crates/softfig-fuse/src/fs.rs:1127-1167 | a kernel write on a live file changes the written range and nothing else exactly when what the reader sees of the file agrees with the content outside the range |
| Reads.KernelResizeIff | crates/softfig-fuse/src/fs.rs:1390-1406 | a new size cuts or pads a live file's own bytes exactly when what is read back agrees with the content up to that size |
| Reads.HandleChmodIff | crates/softfig-fuse/src/lib.rs:267-271 | one through the mount handle exactly when the content can be read or is empty |
| Durability.SnapshotHoldsIff | crates/softfig-fuse/src/fs.rs:267-270 | a chain's part holds what is staged at a path it owns, bytes and masked mode, exactly when that is a removal, or a file the snapshot reached that is not at a mount root |
| Durability.CapturedIff | crates/softfig-fuse/src/fs.rs:183-243 | the snapshot reaches a staged file exactly when everything above it resolves to a directory |
| Durability.StrayFileIsAbsent | crates/softfig-fuse/src/fs.rs:778-834 | a file staged exactly at an enabled mount root changes no snapshot |
| Durability.WriteLandsIff | crates/softfig-fuse/src/fs.rs:513-519 | the tree snapshotted after a write holds it exactly when it is not at a mount root and nothing staged above it before was a file or a removal |
| Durability.StepHoldsCapture | crates/softfig-fuse/src/overlay.rs:100-133 | every step keeps, path by path: what is staged at or below a commit's cutoff is in that commit's tree, a removal as an absence |
| Durability.SlotFate | crates/softfig-fuse/src/overlay.rs:100-133 | in one step a staged file or removal stays, is staged over, or its owner's landed tree holds it |
| Durability.CaptureHeldOverRun | crates/softfig-fuse/src/fs.rs:84-144 | over every run what a commit in flight captured at a path is in its tree |
| Durability.NoStagedWriteLost | crates/softfig-fuse/src/fs.rs:84-144 | over every run of staging, snapshots, landings, pulls, swaps and failed recompositions a file or removal staged at a path stays until it is staged over or landed; the only conditions are on that path: snapshots of its chain reach the file (`SnapshotHoldsIff` says when), swaps do not hand it captured to a chain in flight |
| Durability.AbsorbedIff | crates/softfig-fuse/src/fs.rs:138-143 | a landing drops a staged file or removal exactly when it was captured and the landing chain owns it now |
| Durability.CaptureSurvivesSwapIff | crates/softfig-fuse/src/fs.rs:335-342 | across a registry swap the landed tree holds a staged file exactly when the snapshot reached it, the chain owned it at the split and it is not at the chain's mount; else it holds nothing there |
| Durability.FlushStep | crates/softfig-vcs/src/repo.rs:443-477 | one landing of a flush touches its own chain's captures and nothing else, and none if it is skipped |
| Durability.FlushLeaves | crates/softfig-keeperd/src/actions/mod.rs:164-300 | after any number of landings of a flush, whichever chains record an unchanged tree, which entries are left |
| Durability.FlushDrainsIff | crates/softfig-keeperd/src/actions/mod.rs:164-300 | a flush of all pending chains drains every file and removal, except exactly those whose own chain's commit was skipped as equal |
| Durability.SkippedIsCommitted | crates/softfig-vcs/src/repo.rs:648-662 | what a skipped commit leaves staged is already stored |
| Limits.LandingCanOrphan | crates/softfig-fuse/src/fs.rs:670-683 | a run from a fresh mount whose landing hides a staged file |
| Limits.WriteUnderRemovedIsLost | crates/softfig-fuse/src/fs.rs:670-683 | a run from a fresh mount: a write below a removed directory that its landing drops and no tree holds |
| Limits.RenameMergesAndCuts | crates/softfig-fuse/src/fs.rs:570-615 | a run from a fresh mount: a rename onto a directory with entries merges the two and cuts a file off |
| Limits.SwapCanLoseWrite | crates/softfig-fuse/src/fs.rs:335-342 | a run from a fresh mount: a registry swap after which a landing drops a live file no tree holds |
| Limits.ChmodMakesFile | crates/softfig-fuse/src/fs.rs:537-550 | a run in which a chmod of a path a pull deleted makes it anew, empty |
| Limits.ChmodAfterPull | crates/softfig-fuse/src/fs.rs:1347-1425 | the same on the shared state: the inode survives the pull |
| Limits.ChmodLosesSealed | crates/softfig-fuse/src/fs.rs:1405-1419 | a chmod of a sealed file that stages its placeholder |
| Limits.WriteLosesSealed | crates/softfig-fuse/src/fs.rs:1127-1167 | a one-byte write to a sealed file that stages its placeholder |
| Limits.FlushCanLeaveFile | crates/softfig-vcs/src/repo.rs:443-477 | a run from a fresh mount and a flush that leaves a file staged and its chain pending |
| Limits.DirMarkersDoNotShelter | crates/softfig-fuse/src/overlay.rs:100-133 | a surviving directory marker whose parent's marker is dropped |
| Inodes.InodeMap.constructor | crates/softfig-fuse/src/inodes.rs:24-35 | the root alone, inode 1 |
| Inodes.InodeMap.Intern | crates/softfig-fuse/src/inodes.rs:37-47 | an interned path keeps its inode, a new one gets the next |
| Inodes.InodeMap.Forget | crates/softfig-fuse/src/inodes.rs:60-66 | both directions are dropped, the counter is not |
| Inodes.InodeMap.Rename | crates/softfig-fuse/src/inodes.rs:68-74 | the inode moves with the path |
| Inodes.CallsAreExact | crates/softfig-fuse/src/inodes.rs:37-74 | a new path gets a number no inode has, a forgotten one loses its number both ways, a renamed one takes its own along, no other path is touched |
| Inodes.RenameBijectiveIff | crates/softfig-fuse/src/inodes.rs:68-74 | the renamed path keeps its inode; the maps stay inverse exactly when nothing was overwritten |
| Inodes.RunsStayConsistent | crates/softfig-fuse/src/inodes.rs:37-74 | over all runs every path's inode leads back to it; a full bijection when no rename destination was interned |
| Inodes.InodesNeverReissued | crates/softfig-fuse/src/inodes.rs:37-74 | a newly issued inode is larger than any of any earlier state |
| Mount.SharedState.constructor | crates/softfig-fuse/src/fs.rs:909-946 | valid: the composed view, nothing staged or cached, every path interned |
| Mount.SharedState.InternAll | crates/softfig-fuse/src/fs.rs:134-138 | every view path gets an inode, none already handed out changes |
| Mount.SharedState.ReadBytes | crates/softfig-fuse/src/fs.rs:1561-1614 | the answer and the cache it leaves, and that the answer is the uncached read |
| Mount.SharedState.ReadWorkfile | crates/softfig-fuse/src/fs.rs:443-459 | the plain content, failing exactly when the store must supply it and cannot |
| Mount.SharedState.RotateTip | crates/softfig-fuse/src/fs.rs:103-144 | stays valid; the cache is dropped; on success the view is the union of the refs and exactly the captured owned entries go; on failure view and overlay stay; no inode is lost |
| Mount.SharedState.SetRegistry | crates/softfig-fuse/src/fs.rs:335-342 | a swap step of the protocol with the cache dropped; stays valid |
| Mount.SharedState.CommitSnapshot | crates/softfig-vcs/src/repo.rs:443-477 | a landing step of the protocol, skipped exactly when the tree is the one the ref holds and is not recorded anyway; the cache is dropped unless skipped; stays valid |
| Mount.SharedState.CommitOverTree | crates/softfig-vcs/src/repo.rs:501-534 | a pull step of the protocol: the overlay and every inode stay; stays valid |
| Mount.SharedState.UnifiedSnapshot | crates/softfig-fuse/src/fs.rs:183-243 | the snapshot holds exactly the live non-ignored files at the overlay's generation; fails exactly when a committed one cannot be read |
| Mount.SharedState.ChainSnapshots | crates/softfig-fuse/src/fs.rs:267-270 | one part per enabled chain, all cut at one generation; fails exactly when some committed file to capture cannot be read |
| Mount.SharedState.PendingChainRefs | crates/softfig-fuse/src/fs.rs:351-368 | the owners of all staged files and removals |
| Mount.SharedState.EnsureOverlayDirs | crates/softfig-fuse/src/fs.rs:670-683 | a marker for every ancestor with no entry of its own that is no committed directory, and nothing else |
| Mount.SharedState.StageWrite | crates/softfig-fuse/src/fs.rs:513-519 | stages exactly the markers and the file of a write; the path is interned; stays valid |
| Mount.SharedState.StageMode | crates/softfig-fuse/src/fs.rs:537-550 | nothing on a directory, else the bytes given under the new mode |
| Mount.SharedState.StageModeOf | crates/softfig-fuse/src/lib.rs:267-271 | stages the plain content read back, nothing for a failed read; when that keeps the content |
| Mount.SharedState.AttrFor | crates/softfig-fuse/src/fs.rs:1477-1540 | attributes are found exactly for the root and for what resolves; a committed file is read for its length, which may fill the cache |
| Mount.SharedState.Setattr | crates/softfig-fuse/src/fs.rs:1347-1425 | its reply in every case, what a size or a mode stages, the cache and the inodes it leaves; when a live file ends as its own bytes cut or padded, or with its content kept; a truncation to nothing always empties it |
| Mount.SharedState.SetSize | crates/softfig-fuse/src/fs.rs:1390-1406 | a live file is its own bytes cut or padded, under the mode given or its own, exactly when what was read back agrees with it below the size; size 0 empties it |
| Mount.SharedState.SetMode | crates/softfig-fuse/src/fs.rs:1407-1420 | what a mode stages, and when it keeps the content |
| Mount.SharedState.WriteAt | crates/softfig-fuse/src/fs.rs:1127-1167 | the data spliced into what is read back is staged, nothing on a failed read; a live file changes in the written range alone exactly when what was seen of it agrees outside |
| Mount.SharedState.RenameMovers | crates/softfig-fuse/src/fs.rs:646-659 | everything live at and under the source, once, files and directories apart |
| Mount.SharedState.StageRemove | crates/softfig-fuse/src/fs.rs:629-636 | every live entry at and under the path is marked removed and loses its inode, nothing else changes; stays valid |
| Mount.SharedState.MoveFile | crates/softfig-fuse/src/fs.rs:603-608 | one file of a rename: source removed, markers, image; the inode moves |
| Mount.SharedState.MoveDir | crates/softfig-fuse/src/fs.rs:609-613 | one directory of a rename |
| Mount.SharedState.MoveAll | crates/softfig-fuse/src/fs.rs:600-615 | the second pass: files then directories stage exactly the rename, and every moved path keeps its inode |
| Mount.MoveFileStep | crates/softfig-fuse/src/fs.rs:603-608 | moving one more file keeps the batch accounted for, entry by entry |
| Mount.MoveDirStep | crates/softfig-fuse/src/fs.rs:609-613 | the same for one more directory |
| Mount.AllMoved | crates/softfig-fuse/src/fs.rs:570-615 | with every mover done the batch is the rename |
| Mount.SharedState.StageRename | crates/softfig-fuse/src/fs.rs:570-615 | fails, changing nothing, exactly when a committed file to move cannot be read; else stages exactly the rename, and every moved path keeps its inode; stays valid |
| Mount.SharedState.Create | crates/softfig-fuse/src/fs.rs:1084-1125 | refused at a live mount root, else stages an empty file |
| Mount.SharedState.Mkdir | crates/softfig-fuse/src/fs.rs:1169-1219 | stages a directory marker |
| Mount.SharedState.Unlink | crates/softfig-fuse/src/fs.rs:1221-1242 | only a file; removes exactly it |
| Mount.SharedState.Rmdir | crates/softfig-fuse/src/fs.rs:1244-1278 | busy at a mount root, not empty with live children, else removes exactly the directory |
| Mount.SharedState.Rename | crates/softfig-fuse/src/fs.rs:1280-1345 | absent, busy, unsupported, taken and unreadable answers, none of which changes anything, else exactly the rename |
| Serving.HandleStaging | crates/softfig-fuse/src/fs.rs:513-659 | a staging request is the one step it asks for, or none exactly when it is refused |
| Serving.HandleAttr | crates/softfig-fuse/src/fs.rs:1347-1425 | `setattr` is a read and one file staged where it read, a read, or nothing, as its arguments and the state say |
| Serving.HandleWrite | crates/softfig-fuse/src/fs.rs:1127-1167 | `write` is a read and the splice staged where it read, or the read alone when it fails |
| Serving.HandleCommit | crates/softfig-fuse/src/fs.rs:267-270 | committing a chain is the snapshot of that chain and its landing; nothing exactly when there is no such chain or an object is missing |
| Serving.HandleSync | crates/softfig-vcs/src/repo.rs:501-534 | a pull or a registry swap is that one step |
| Serving.Serve | crates/softfig-fuse/src/fs.rs:1561-1614 | any sequence of requests goes along a trace of the protocol in which each request takes exactly the calls it stands for in the scene it finds, no commit being in flight; every read is answered as an uncached read there |
| Serving.ReadableCommitLands | crates/softfig-fuse/src/fs.rs:267-270 | serving a commit whose objects can all be read leaves the chain's ref with that chain's part of the files live when it was asked for |
| Serving.RunBehindIsRun | crates/softfig-fuse/src/fs.rs:84-144 | the steps of a trace are a run of the protocol through its states |
| Serving.StepsAreCalls | crates/softfig-fuse/src/fs.rs:84-144 | every step of that run is a call of the trace, in the same state |
| Serving.ServingStaysGood | crates/softfig-fuse/src/fs.rs:84-144 | while every step a request takes is careful the object satisfies the invariant |
| Serving.CommitShowsNothing | crates/softfig-fuse/src/fs.rs:84-144 | then serving a read or a commit changes nothing on the working tree |
| Serving.ServingLosesNoWrite | crates/softfig-fuse/src/fs.rs:84-144 | what is staged when serving starts stays until it is staged over or landed, provided every snapshot of its chain reaches it |
| Migrate.Machine.MoveFile | crates/softfig-cli/src/cmd_claude_login.rs:687-710 | cut anywhere, by rename or by copy, the content stays in home or staging and nowhere differs; only this name and its temporaries change |
| Migrate.Machine.MoveOnce | crates/softfig-cli/src/cmd_claude_login.rs:725-750 | the same when an earlier run moved it or left two equal copies; done means the home copy is gone and staging has the one there was; uncut, exactly when it can be moved |
| Migrate.Machine.LinkShared | crates/softfig-cli/src/cmd_claude_login.rs:487-505 | every shared name that exists at home is linked, no other entry changes; done exactly when nothing but proper links was in the way |
| Migrate.SharedNamesComplete | crates/softfig-cli/src/slot_layout.rs:52-61 | the list walked has every shared name |
| Migrate.Machine.SetActive | crates/softfig-cli/src/cmd_claude_login.rs:340-356 | the active link is retargeted in one rename or left as it was |
| Migrate.Machine.Gather | crates/softfig-cli/src/cmd_claude_login.rs:796-801 | both account files and the links are staged, or the run can be resumed |
| Migrate.Machine.Finish | crates/softfig-cli/src/cmd_claude_login.rs:802-806 | staging becomes the slot in one rename; from then on each file has one named copy, in the slot |
| Migrate.Machine.Run | crates/softfig-cli/src/cmd_claude_login.rs:752-818 | any run, cut anywhere: an existing slot, a running claude, a source that is no regular file, no credential to move and an obstacle for staging are refused with nothing touched; resumable stays resumable or has arrived; done means the slot has the files that were at home or staged, the links and nothing else new; uncut, it is done exactly when nothing is in its way and refused otherwise |
| Migrate.RenameArrives | crates/softfig-cli/src/cmd_claude_login.rs:802-803 | the rename loses nothing and leaves exactly one named copy |
| Migrate.NeverLost | crates/softfig-cli/src/cmd_claude_login.rs:683-818 | over any number of runs each cut anywhere the original bytes are in a named location and no named location holds others |
| Migrate.ArrivalIsFinal | crates/softfig-cli/src/cmd_claude_login.rs:760-766 | once arrived every further run is refused and changes nothing |
| Migrate.LiveChangesNothing | crates/softfig-cli/src/cmd_claude_login.rs:766-776 | over any runs with claude running the disk stays as it was, every run refused |
| Migrate.NothingToMove | crates/softfig-cli/src/cmd_claude_login.rs:787-793 | over any runs with no credential at home or staged the disk stays as it was, every run refused |
| Migrate.StagedLinkArrives | crates/softfig-cli/src/cmd_claude_login.rs:787-793 | a link staged under the credential's name passes for a moved file and becomes the slot's |
| Utf8.PrefixValidIff | crates/softfig-deploy/src/stamp.rs:34-40 | valid UTF-8 cut anywhere is valid exactly when the cut is between characters |
| Utf8.ValidIff | crates/softfig-deploy/src/stamp.rs:34-40 | bytes are well-formed exactly when they encode a sequence of scalar values by the table of section 3 of RFC 3629 |
| Stamp.CommentLeader | crates/softfig-deploy/src/stamp.rs:15-30 | a leader is one or two ASCII characters that cannot start a shebang |
| Stamp.ExtensionIs | crates/softfig-deploy/src/stamp.rs:15-20 | the extension is what follows the last dot; a dot and a word, or a word, has none |
| Stamp.ComposeCopy | crates/softfig-deploy/src/stamp.rs:47-67 | the buffer holds the source with the stamp at its place; stamped exactly when the type has a leader, else the source as it is |
| Stamp.InsertStamp | crates/softfig-deploy/src/stamp.rs:53-66 | the stamp goes behind an ended shebang line, else in front |
| Stamp.StampAddsOneLine | crates/softfig-deploy/src/stamp.rs:47-67 | the output has the source's lines, every one whole, and one more: leader, marker and source name, behind a shebang line that ends, else in front |
| Stamp.UnstampedComposed | crates/softfig-deploy/src/stamp.rs:47-67 | the source can be read back from the output, for every name, source and provenance |
| Stamp.ComposedInjective | crates/softfig-deploy/src/stamp.rs:47-67 | equal outputs for one target and source name come from equal sources |
| Stamp.ManagedIff | crates/softfig-deploy/src/stamp.rs:34-40 | a file counts as softfig's own exactly when its first 512 bytes are valid UTF-8 and hold the marker with at most two line feeds before it |
| Stamp.RecognisedIff | crates/softfig-deploy/src/stamp.rs:34-40 | a stamped output is recognised exactly when its first 512 bytes are valid UTF-8 and the shebang line leaves room or quotes the marker |
| Stamp.TextRecognisedIff | crates/softfig-deploy/src/stamp.rs:34-40 | for text: exactly when byte 512 starts a character and the same about the shebang line |
| Stamp.StampCanBeMissed | crates/softfig-deploy/src/stamp.rs:34-40 | for every stampable name some text source whose stamp is not recognised |
| Plans.SkipIffRealised | crates/softfig-deploy/src/plan.rs:300-346 | a dot is marked unchanged exactly when its desired state is there |
| Plans.UnforcedSparesForeign | crates/softfig-deploy/src/apply.rs:74-86 | without force nothing changes at a dot whose target is not softfig's; the plan says conflict exactly then, unless the wanted copy is there already; no unforced deploy touches a backup |
| Plans.ConflictTellsWhy | crates/softfig-deploy/src/plan.rs:309-345 | the reason says what is at the target |
| Plans.UnreadableIff | crates/softfig-deploy/src/plan.rs:304-322 | the state cannot be read exactly when the target is the dot's link and its cache is no regular file |
| Plans.ForcedKeepsForeign | crates/softfig-deploy/src/apply.rs:74-79 | with force, cut anywhere, all that was at somebody else's target is there still or is the backup |
| Plans.NewLinkIsFilled | crates/softfig-deploy/src/apply.rs:95-100 | cut anywhere, a new link leads to the whole source |
| Plans.DotConverges | crates/softfig-deploy/src/apply.rs:56-115 | a dot cut at any step, planned and applied again, ends as uncut |
| Plans.DotSettles | crates/softfig-deploy/src/apply.rs:56-115 | an applied dot is realised or its conflict untouched, applying again changes nothing, and the backup holds what the forced target held |
| Plans.CutConverges | crates/softfig-deploy/src/apply.rs:45-91 | the same for a whole table: same targets, caches, backups and verdict |
| Plans.CutsConverge | crates/softfig-deploy/src/apply.rs:45-91 | over any number of cut runs |
| Plans.CutsSpareForeign | crates/softfig-deploy/src/apply.rs:45-91 | over any number of unforced runs, each cut anywhere, a target that is not softfig's keeps target, backup and cache |
| Plans.CutsLoseNothing | crates/softfig-deploy/src/apply.rs:45-91 | over any number of forced runs, each cut anywhere, nothing of such a target is lost |
| Plans.AppliedSettles | crates/softfig-deploy/src/apply.rs:45-91 | after success a further plan skips every dot, or without force reports the same conflict over an untouched target |
| Plans.RedeployedCopy | crates/softfig-deploy/src/plan.rs:323-345 | a deployed copy with a changed source is replaced exactly when its stamp is recognised, else a conflict; an unchanged one is skipped |
| Plans.StaleTextCopyIff | crates/softfig-deploy/src/plan.rs:323-345 | for text, exactly when the stamp survives the 512-byte head |
| Plans.UnstampedCopyConflicts | crates/softfig-deploy/src/apply.rs:104-111 | an unstampable copy conflicts with its own output exactly when the source changed and did not carry the marker |
| Apply.Deployer.MakeDirs | crates/softfig-deploy/src/apply.rs:126-128 | only directories at and above the path appear; fails only at a non-directory |
| Apply.Deployer.RenameInto | crates/softfig-deploy/src/apply.rs:131-147 | the rename replaces anything but a directory |
| Apply.Deployer.WriteAtomic | crates/softfig-deploy/src/apply.rs:126-135 | cut anywhere the path holds the old node or all of the new bytes; no temporary is left by an uncut run |
| Apply.Deployer.PlaceSymlink | crates/softfig-deploy/src/apply.rs:139-147 | cut anywhere the path holds the old node or the new link |
| Apply.Deployer.BackUp | crates/softfig-deploy/src/apply.rs:150-161 | the whole subtree moves in one step, over what the backup held; fails, changing nothing, exactly when the rename is impossible |
| Apply.MovedAsideAt | crates/softfig-deploy/src/apply.rs:150-161 | the node at every path after the move |
| Apply.Deployer.PutCache | crates/softfig-deploy/src/apply.rs:98-100 | the cache half, seen at the dot's places |
| Apply.Deployer.PutTarget | crates/softfig-deploy/src/apply.rs:100-113 | the target half, for a link and for a copy |
| Apply.Deployer.Materialize | crates/softfig-deploy/src/apply.rs:95-116 | cache then target; cut only before, between or after |
| Apply.Deployer.Replace | crates/softfig-deploy/src/apply.rs:74-79 | backup, then materialise |
| Apply.Deployer.ApplyDot | crates/softfig-deploy/src/apply.rs:56-88 | one dot by its planned action: uncut it ends as planned, cut it is on the way, and no other dot's places change |
| Apply.SparesKeeps | crates/softfig-deploy/src/apply.rs:56-88 | one dot's work leaves another's places and the ways to them alone |
| Apply.Deployer.Plan | crates/softfig-deploy/src/plan.rs:80-141 | no plan exactly when some dot's places cannot be read; else for each dot what the action says of the filesystem: in place, absent, softfig's but stale, or somebody else's |
| Apply.PlanOfLocal | crates/softfig-deploy/src/plan.rs:300-346 | deciding needs only the nodes at the places themselves, not what is below them |
| Apply.Deployer.MakeCacheRoot | crates/softfig-deploy/src/apply.rs:48-54 | made only when a link dot will be touched; no dot's places change |
| Apply.Deployer.Apply | crates/softfig-deploy/src/apply.rs:45-91 | on the filesystem: a cut leaves a cut state, success and failure leave what the table promises, nothing outside the dots' places changes but directories above them |
| Apply.Deployer.Deploy | crates/softfig-deploy/src/apply.rs:45-91 | the same for plan and apply together; the table can be planned again afterwards; cut anywhere, nothing changes at and below the places of a dot whose target is somebody else's, or with force all of it is kept, and a new link leads to the whole source |
| Apply.DeployAgain | crates/softfig-deploy/src/apply.rs:45-91 | deploying again and again on one filesystem, each run cut anywhere: a run that ends leaves the targets, caches and backups one uncut run from the start would; without force no run touches a target that is somebody else's |
| Calendar.EraIsFloor | crates/softfig-cli/src/cmd_onboard.rs:232-234 | the truncating era division floors, and the day of the era is in 0..146096 |
| Calendar.DayLiesInYear | crates/softfig-cli/src/cmd_onboard.rs:235-237 | the closed form picks the year of the era the day lies in, 0..399 |
| Calendar.DayLiesInMonth | crates/softfig-cli/src/cmd_onboard.rs:238-239 | the month and day of the year, 0..11 and from 1 |
| Calendar.DayInYearSteps | crates/softfig-cli/src/cmd_onboard.rs:231-243 | within a year every date is valid and followed by its calendar successor |
| Calendar.CivilIsValid | crates/softfig-cli/src/cmd_onboard.rs:231-243 | every integer day gives a valid Gregorian date |
| Calendar.CivilEpoch | crates/softfig-cli/src/cmd_onboard.rs:231-243 | day 0 is 1970-01-01 |
| Calendar.CivilSuccessor | crates/softfig-cli/src/cmd_onboard.rs:231-243 | the day after has the date after, for every integer |
| Calendar.DayNumberOfCivil | crates/softfig-cli/src/cmd_growlight.rs:1581-1592 | counting days year by year and month by month gives the number back |
| Calendar.CivilOfDayNumber | crates/softfig-cli/src/cmd_onboard.rs:231-243 | every valid date of any year is the date of its day number |
| Calendar.UnsignedCopyAgrees | crates/softfig-cli/src/cmd_repo.rs:443-455 | no step of the u64 copy wraps, and it agrees with the signed one, on every day |
| Calendar.Iso8601RoundTrips | crates/softfig-cli/src/cmd_repo.rs:430-439 | the printed fields are in range and name the second they came from, before the epoch too |
| Calendar.NoOverflow | crates/softfig-cli/src/cmd_repo.rs:443-447 | for every i64 number of seconds the signed steps stay inside 64 bits |

## Left out

- Kernel plumbing: `FileAttr`, TTLs, mount and release, inode lookups of the handlers other than `setattr` and `write`, the sink that is told of changes.
- Locks and threads: each operation is one atomic step. Handlers that release the lock between collecting and decrypting read objects that do not change.
- Encryption, object hashes and the database: blobs are their plaintext, a tree stands for its hash, an unreadable object is a parameter (`broken`), a failed recomposition another. The one database error kept apart is that one.
- Sealing and redaction are uninterpreted functions of path and bytes.
- `.softfigignore` parsing: ignoring is a fixed set of top-level names.
- The EROFS refusal on unkeyed shares (`unkeyed_shared_owner`, fs.rs:300-311): it only takes operations away.
- Wrap-around of the u64 generation, step and inode counters.
- `list_children` (fs.rs:1662-1707): the same two passes as `read_dir_entries`.
- `insert_file` on nested `&mut` maps is modelled on immutable trees; aliasing inside one tree is not captured. `HashMap` order is any order.
- Nested mounts, equal mounts and equal refs: `ChainRegistry`'s documentation excludes them and `WellFormed` asks for that; `owning_chain` itself is modelled for any registry.
- Protocol.RunStaysGood: takes staging under `OpAllowed`: parents are directories, a file is not staged over a directory or over or above a live mount, a rename's ends are apart and it puts no file on a directory. The kernel sees to that, except for what is inside a directory renamed onto one with entries (`Staging.RenameConnectedIff`, `Limits.RenameMergesAndCuts`); the daemon's own verbs do not look.
- Durability.NoStagedWriteLost: asks that the snapshots of its chain reach the file and that it is not handed over captured by a swap, because the code loses it otherwise (`Durability.SnapshotHoldsIff`, `Durability.CaptureSurvivesSwapIff`, `Limits.WriteUnderRemovedIsLost`, `Limits.SwapCanLoseWrite`); nothing is asked of other paths or other steps.
- Protocol.OnlyTreeChangesShow: its landings are the sheltered ones of `Protocol.LandingInvisibleIff`, its pulls and swaps are recomposed and pass the test of `Protocol.RecomposedConnectedIff` in the state before. After a pull or swap whose recomposition failed the view is behind the refs until the next rotation; `Durability.NoStagedWriteLost` and `Reads.ReadsAreUncached` cover such runs.
- Protocol.OpsOrphanNothing: is about one view, so between rotations; a landing can leave a directory marker without its parent (`Limits.DirMarkersDoNotShelter`), and what then still holds is said of files by `Protocol.MkdirHoldsNoFile`.
- Serving.Serve: serves one request after another, a commit's snapshot and landing together; `Protocol` and `Durability` interleave them with everything else.
- Migrate.Machine.Run: the source compares what a link staged beside a file still at home leads to, the model refuses; modes, fsync, the process scan and store creation are not modelled, nor a broken link standing for a shared name at home.
- `claude-login add`, `use`, `run`, `doctor` and the projection of `.claude.json`: little state that `migrate` does not have.
- Resolving and confining deploy targets (`resolve_target`, `canonicalize_deepest_existing`, plan.rs:156-228), `validate_name`, `validate_source` and reading sources: targets are taken as canonical, and a symlink on the way to one, or at a cache path, as unreadable.
- Apply.Deployer.Apply: does not fill the `Report` lists and warnings; file modes and directory modes are not modelled.
- Temporaries of a cut deploy stay behind; they are kept apart from the filesystem the claims are about.
- The calendar copies do not model the u32 casts of day and month (at most 31 and 12) or the zero-padded printing.
