/** The mount serving any sequence of requests: what every method of `SharedState` does
    is the calls its request stands for, so what is proved about runs holds of the object
    (crates/softfig-fuse/src/fs.rs). */
module Serving {
  import opened Paths
  import opened Trees
  import opened Chains
  import opened Overlays
  import opened Protocol
  import opened Durability
  import opened Reads
  import opened Live
  import opened Staging
  import opened Mount

  /** What the kernel, the daemon and the writer ask for. `broken` is what the store
      cannot supply at that moment, `fails` a recomposition that fails. */
  datatype Request =
    | ReadFile(path: Path, broken: set<Path>)
    | WriteFile(path: Path, content: Bytes)
    | WriteRange(ino: nat, offset: int, data: Bytes, broken: set<Path>)
    | ChangeAttr(ino: nat, newMode: Option<nat>, size: Option<nat>, broken: set<Path>)
    | MakeFile(path: Path, mode: nat)
    | MakeDir(path: Path, mode: nat)
    | UnlinkFile(path: Path)
    | RemoveDir(path: Path)
    | RemoveTree(path: Path)
    | Move(from: Path, to: Path, broken: set<Path>)
    | CommitChain(k: nat, broken: set<Path>, record: bool, fails: bool)
    | PullTree(ref: Ref, tree: Node, fails: bool)
    | SetChains(reg: Registry, fails: bool)

  /** What the callers see to. */
  predicate Proper(q: Request) {
    && (q.Move? ==> Disjoint(q.from, q.to))
    && (q.PullTree? ==> q.tree.Dir?)
  }

  ghost predicate ProperChains(q: Request) {
    q.SetChains? ==> WellFormed(q.reg)
  }

  predicate IsStaging(q: Request) {
    q.WriteFile? || q.MakeFile? || q.MakeDir? || q.UnlinkFile? || q.RemoveDir? || q.RemoveTree? || q.Move?
  }

  /** The operation a staging request asks for. */
  function OpOf(q: Request): Op
    requires IsStaging(q)
  {
    match q
    case WriteFile(p, content) => Op.Write(p, content)
    case MakeFile(p, mode) => Op.Create(p, FileData([], mode))
    case MakeDir(p, mode) => Op.Mkdir(p, mode)
    case UnlinkFile(p) => Op.Remove(p)
    case RemoveDir(p) => Op.Remove(p)
    case RemoveTree(p) => Op.Remove(p)
    case Move(from, to, _) => Op.Rename(from, to)
  }

  /** A staging request is refused: at a mount root, for what is not there or not empty,
      or for want of an object. The others never are. */
  ghost predicate Refused(q: Request, w: World) {
    match q
    case MakeFile(p, _) => IsEnabledMountRoot(w.reg, p)
    case UnlinkFile(p) => !Resolve(w.view, w.log.slots, p).IsFile?
    case RemoveDir(p) =>
      IsEnabledMountRoot(w.reg, p) || !Resolve(w.view, w.log.slots, p).IsDir? || LiveChildren(w.view, w.log.slots, p) != {}
    case Move(from, _, broken) => MovesUnreadable(w.view, w.log.slots, from, broken)
    case _ => false
  }

  /** What a request finds: the protocol's state, the inodes, and what never changes. */
  datatype Scene = Scene(at: Mounted, table: Inodes.Table, reader: Reader, ignored: set<Name>)

  function PathIn(t: Inodes.Table, ino: nat): Option<Path> {
    if ino in t.byInode then Some(t.byInode[ino]) else None
  }

  /** `setattr`: a read and one file staged where it read, a read alone, or nothing. */
  predicate ServesAttr(c: Scene, ino: nat, mode: Option<nat>, size: Option<nat>, broken: set<Path>, calls: seq<Call>) {
    var w, path := c.at.world, PathIn(c.table, ino);
    if Restages(path, mode, size, w.reg, w.view, w.log.slots) then
      var back := ReadBack(c.reader, w.view, w.log.slots, c.at.cache, path.value, broken);
      calls == [Fetch(path.value, broken),
                Do(Stage(Op.Create(path.value, NewAttrFile(w.view, w.log.slots, path.value, back, mode, size))))]
    else if Accepted(path, mode, size, w.reg, w.view, w.log.slots) && ino != Inodes.ROOT_INODE then calls == [Fetch(path.value, broken)]
    else calls == []
  }

  /** `write`: a read, and unless it fails the splice staged where it read. */
  predicate ServesWrite(c: Scene, ino: nat, offset: int, data: Bytes, broken: set<Path>, calls: seq<Call>) {
    var w, path := c.at.world, PathIn(c.table, ino);
    if path.None? then calls == []
    else
      var answer := Answer(c.reader, w.view, w.log.slots, c.at.cache, path.value, broken);
      if answer.None? then calls == [Fetch(path.value, broken)]
      else
        var file := FileData(Spliced(answer.value, if offset > 0 then offset else 0, data),
                             CurrentMode(w.view, w.log.slots, path.value, FILE_MODE));
        calls == [Fetch(path.value, broken), Do(Stage(Op.Create(path.value, file)))]
  }

  /** A commit is the snapshot of the chain asked for and its landing; there is none only
      for want of such a chain or of an object. */
  ghost predicate ServesCommit(c: Scene, k: nat, broken: set<Path>, record: bool, fails: bool, calls: seq<Call>) {
    var chains := EnabledChains(c.at.world.reg);
    if k >= |chains| || MissesObject(c.at.world, c.ignored, broken) then calls == []
    else calls == [Do(Snapshot(chains[k])), Do(Land(chains[k].refName, !fails, record))]
  }

  /** The calls a request comes down to. */
  ghost predicate Serves(q: Request, c: Scene, calls: seq<Call>) {
    match q
    case ReadFile(p, broken) => calls == [Fetch(p, broken)]
    case WriteRange(ino, offset, data, broken) => ServesWrite(c, ino, offset, data, broken, calls)
    case ChangeAttr(ino, mode, size, broken) => ServesAttr(c, ino, mode, size, broken, calls)
    case CommitChain(k, broken, record, fails) => ServesCommit(c, k, broken, record, fails, calls)
    case PullTree(r, tree, fails) => calls == [Do(Pull(r, tree, !fails))]
    case SetChains(reg, fails) => calls == [Do(Swap(reg, !fails))]
    case _ => calls == if Refused(q, c.at.world) then [] else [Do(Stage(OpOf(q)))]
  }

  /** The scene the object makes now. */
  ghost function SceneOf(m: SharedState): Scene
    reads m, m.overlay, m.inodes
  {
    Scene(m.AsMounted(map[]), m.inodes.State(), m.reader, m.ignored)
  }

  // ---- traces ------------------------------------------------------------------

  /** The states the object goes through and the calls between them. */
  datatype Trace = Trace(states: seq<Mounted>, calls: seq<Call>)

  /** The object has come along the trace and is at `now`. */
  ghost predicate IsTrace(rd: Reader, t: Trace, now: Mounted, ignored: set<Name>) {
    AreCalls(rd, t.states, t.calls, ignored) && t.states[|t.calls|] == now
  }

  function Then(t: Trace, call: Call, next: Mounted): Trace {
    Trace(t.states + [next], t.calls + [call])
  }

  predicate Continues(t: Trace, t': Trace) {
    t.states <= t'.states && t.calls <= t'.calls
  }

  /** `t'` is `t` and then the calls of one request. */
  ghost predicate Served(q: Request, c: Scene, t: Trace, t': Trace) {
    Continues(t, t') && Serves(q, c, t'.calls[|t.calls|..])
  }

  lemma TraceOn(rd: Reader, t: Trace, now: Mounted, call: Call, next: Mounted, ignored: set<Name>)
    requires IsTrace(rd, t, now, ignored) && MountStep(rd, now, call, next, ignored)
    ensures IsTrace(rd, Then(t, call, next), next, ignored)
  {
    var t' := Then(t, call, next);
    forall i | 0 <= i < |t'.calls|
      ensures CallStep(rd, t'.states, t'.calls, i, ignored)
    {
      if i < |t.calls| {
        assert CallStep(rd, t.states, t.calls, i, ignored);
      }
    }
  }

  lemma NewCalls(t: Trace, a: Call, x: Mounted, b: Call, y: Mounted)
    ensures t.calls[|t.calls|..] == [] && Continues(t, t)
    ensures Then(t, a, x).calls[|t.calls|..] == [a] && Continues(t, Then(t, a, x))
    ensures Then(Then(t, a, x), b, y).calls[|t.calls|..] == [a, b] && Continues(t, Then(Then(t, a, x), b, y))
  {
  }

  lemma NewCallsNone(t: Trace)
    ensures t.calls[|t.calls|..] == [] && Continues(t, t)
  {
  }

  /** The calls of request `i` lie between two marks. */
  ghost predicate ServedBetween(q: Request, c: Scene, t: Trace, lo: nat, hi: nat) {
    lo <= hi <= |t.calls| && Serves(q, c, t.calls[lo..hi])
  }

  lemma ServedStays(q: Request, c: Scene, t: Trace, t': Trace, lo: nat, hi: nat)
    requires ServedBetween(q, c, t, lo, hi) && Continues(t, t')
    ensures ServedBetween(q, c, t', lo, hi)
  {
    assert t'.calls[lo..hi] == t.calls[lo..hi];
  }

  /** What a read returns in a state. */
  predicate ReadIn(rd: Reader, m: Mounted, p: Path, broken: set<Path>, r: Option<Bytes>) {
    r == if Fetches(rd, m.world.view, m.world.log.slots, m.cache, p) && p in broken then None
         else Some(Read(rd, m.world.view, m.world.log.slots, p))
  }

  // ---- the requests --------------------------------------------------------------

  /** The object's part in a staging request; `staged` says that it was not refused. */
  method DoStaging(m: SharedState, q: Request) returns (staged: bool)
    requires m.Valid() && Proper(q) && IsStaging(q)
    modifies m.overlay, m.inodes
    ensures m.Valid() && (staged <==> !Refused(q, old(m.AsWorld(map[]))))
    ensures staged ==> m.StagedStep(old(m.overlay.State()), OpOf(q))
    ensures !staged ==> m.overlay.State() == old(m.overlay.State())
  {
    staged := true;
    match q {
      case WriteFile(p, content) => m.StageWrite(p, content);
      case MakeFile(p, mode) =>
        var r := m.Create(p, mode);
        staged := r == Reply.Done;
      case MakeDir(p, mode) => m.Mkdir(p, mode);
      case UnlinkFile(p) =>
        var r := m.Unlink(p);
        staged := r == Reply.Done;
      case RemoveDir(p) =>
        var r := m.Rmdir(p);
        staged := r == Reply.Done;
      case RemoveTree(p) => m.StageRemove(p);
      case Move(from, to, broken) => staged := m.StageRename(from, to, broken);
    }
  }

  method HandleStaging(m: SharedState, q: Request, ghost t: Trace) returns (ghost t': Trace)
    requires m.Valid() && Proper(q) && IsStaging(q)
    requires IsTrace(m.reader, t, m.AsMounted(map[]), m.ignored)
    modifies m.overlay, m.inodes
    ensures m.Valid() && IsTrace(m.reader, t', m.AsMounted(map[]), m.ignored) && Served(q, old(SceneOf(m)), t, t')
  {
    ghost var before := m.AsMounted(map[]);
    var staged := DoStaging(m, q);
    ghost var after, call := m.AsMounted(map[]), Do(Stage(OpOf(q)));
    assert after == before.(world := before.world.(log := m.overlay.State()));
    NewCalls(t, call, after, call, after);
    if staged {
      assert m.StagedStep(before.world.log, OpOf(q));
      TraceOn(m.reader, t, before, call, after, m.ignored);
      t' := Then(t, call, after);
    } else {
      t' := t;
    }
  }

  /** One file entry staged over what was there. */
  lemma StagesFile(rd: Reader, now: Mounted, p: Path, data: FileData, log: Log, ignored: set<Name>)
    requires log == Overlays.Stage(now.world.log, p, StagedFile(data))
    ensures MountStep(rd, now, Do(Stage(Op.Create(p, data))), now.(world := now.world.(log := log)), ignored)
  {
    StageRestages(now.world.log, p, StagedFile(data));
    assert OpBatch(now.world.view, now.world.log.slots, Op.Create(p, data), map[p := StagedFile(data)]);
  }

  /** A read, then an entry staged where it read. */
  lemma ReadThenStage(rd: Reader, t: Trace, before: Mounted, after: Mounted, p: Path, data: FileData, broken: set<Path>, ignored: set<Name>)
    returns (t': Trace)
    requires IsTrace(rd, t, before, ignored)
    requires after.cache == CacheAfter(rd, before.world.view, before.world.log.slots, before.cache, p, broken)
    requires after.world == before.world.(log := Overlays.Stage(before.world.log, p, StagedFile(data)))
    ensures IsTrace(rd, t', after, ignored) && Continues(t, t')
    ensures t'.calls[|t.calls|..] == [Fetch(p, broken), Do(Stage(Op.Create(p, data)))]
  {
    var fetched := before.(cache := after.cache);
    TraceOn(rd, t, before, Fetch(p, broken), fetched, ignored);
    StagesFile(rd, fetched, p, data, after.world.log, ignored);
    TraceOn(rd, Then(t, Fetch(p, broken), fetched), fetched, Do(Stage(Op.Create(p, data))), after, ignored);
    NewCalls(t, Fetch(p, broken), fetched, Do(Stage(Op.Create(p, data))), after);
    t' := Then(Then(t, Fetch(p, broken), fetched), Do(Stage(Op.Create(p, data))), after);
  }

  /** A read alone. */
  lemma ReadAlone(rd: Reader, t: Trace, before: Mounted, after: Mounted, p: Path, broken: set<Path>, ignored: set<Name>)
    returns (t': Trace)
    requires IsTrace(rd, t, before, ignored) && after.world == before.world
    requires after.cache == CacheAfter(rd, before.world.view, before.world.log.slots, before.cache, p, broken)
    ensures IsTrace(rd, t', after, ignored) && Continues(t, t') && t'.calls[|t.calls|..] == [Fetch(p, broken)]
  {
    TraceOn(rd, t, before, Fetch(p, broken), after, ignored);
    NewCalls(t, Fetch(p, broken), after, Fetch(p, broken), after);
    t' := Then(t, Fetch(p, broken), after);
  }

  /** `setattr`: it may read, and may stage one file where it read. */
  method HandleAttr(m: SharedState, q: Request, ghost t: Trace) returns (ghost t': Trace)
    requires m.Valid() && q.ChangeAttr? && IsTrace(m.reader, t, m.AsMounted(map[]), m.ignored)
    modifies m`cache, m.overlay, m.inodes
    ensures m.Valid() && IsTrace(m.reader, t', m.AsMounted(map[]), m.ignored) && Served(q, old(SceneOf(m)), t, t')
  {
    ghost var before, path := m.AsMounted(map[]), m.inodes.PathOf(q.ino);
    ghost var w := before.world;
    var r := m.Setattr(q.ino, q.newMode, q.size, q.broken);
    ghost var after := m.AsMounted(map[]);
    if Restages(path, q.newMode, q.size, w.reg, w.view, w.log.slots) {
      ghost var back := ReadBack(m.reader, w.view, w.log.slots, before.cache, path.value, q.broken);
      ghost var data := NewAttrFile(w.view, w.log.slots, path.value, back, q.newMode, q.size);
      t' := ReadThenStage(m.reader, t, before, after, path.value, data, q.broken, m.ignored);
    } else if Accepted(path, q.newMode, q.size, w.reg, w.view, w.log.slots) && q.ino != Inodes.ROOT_INODE {
      t' := ReadAlone(m.reader, t, before, after, path.value, q.broken, m.ignored);
    } else {
      NewCallsNone(t);
      t' := t;
    }
  }

  /** The kernel `write`. */
  method HandleWrite(m: SharedState, q: Request, ghost t: Trace) returns (ghost t': Trace)
    requires m.Valid() && q.WriteRange? && IsTrace(m.reader, t, m.AsMounted(map[]), m.ignored)
    modifies m`cache, m.overlay
    ensures m.Valid() && IsTrace(m.reader, t', m.AsMounted(map[]), m.ignored) && Served(q, old(SceneOf(m)), t, t')
  {
    ghost var before, path := m.AsMounted(map[]), m.inodes.PathOf(q.ino);
    var r := m.WriteAt(q.ino, q.offset, q.data, q.broken);
    ghost var after := m.AsMounted(map[]);
    if r == Reply.Done {
      ghost var data := m.overlay.byPath[path.value].entry.data;
      t' := ReadThenStage(m.reader, t, before, after, path.value, data, q.broken, m.ignored);
    } else if path.Some? {
      t' := ReadAlone(m.reader, t, before, after, path.value, q.broken, m.ignored);
    } else {
      NewCallsNone(t);
      t' := t;
    }
  }

  /** Snapshot every chain, commit the `k`-th. */
  method HandleCommit(m: SharedState, q: Request, ghost t: Trace) returns (ghost t': Trace)
    requires m.Valid() && q.CommitChain? && IsTrace(m.reader, t, m.AsMounted(map[]), m.ignored)
    modifies m`refs, m`view, m`cache, m.overlay, m.inodes
    ensures m.Valid() && IsTrace(m.reader, t', m.AsMounted(map[]), m.ignored) && Served(q, old(SceneOf(m)), t, t')
  {
    t' := t;
    NewCallsNone(t);
    var snaps, generation := m.ChainSnapshots(q.broken);
    if snaps.None? || q.k >= |snaps.value| {
      return;
    }
    var r, part := snaps.value[q.k].0, snaps.value[q.k].1;
    ghost var before := m.AsMounted(map[]);
    ghost var chain := EnabledChains(m.registry)[q.k];
    ghost var pending: map<Ref, Commit> := map[r := Commit(part, generation)];
    ghost var split := m.AsMounted(pending);
    assert split.world == before.world.(pending := before.world.pending[chain.refName := Commit(part, before.world.log.generation)]);
    assert IsPart(before.world.reg, Captured(before.world, m.ignored), chain, part);
    TraceOn(m.reader, t, before, Do(Snapshot(chain)), split, m.ignored);
    var _ := m.CommitSnapshot(r, part, generation, q.record, q.fails, pending);
    assert pending - {r} == map[];
    ghost var after, land := m.AsMounted(map[]), Do(Land(r, !q.fails, q.record));
    TraceOn(m.reader, Then(t, Do(Snapshot(chain)), split), split, land, after, m.ignored);
    NewCalls(t, Do(Snapshot(chain)), split, land, after);
    t' := Then(Then(t, Do(Snapshot(chain)), split), land, after);
  }

  /** A pull or a registry swap. */
  method HandleSync(m: SharedState, q: Request, ghost t: Trace) returns (ghost t': Trace)
    requires m.Valid() && (q.PullTree? || q.SetChains?) && Proper(q) && ProperChains(q)
    requires IsTrace(m.reader, t, m.AsMounted(map[]), m.ignored)
    modifies m, m.overlay, m.inodes
    ensures m.Valid() && IsTrace(m.reader, t', m.AsMounted(map[]), m.ignored) && Served(q, old(SceneOf(m)), t, t')
  {
    ghost var before := m.AsMounted(map[]);
    ghost var step: Step;
    match q {
      case PullTree(r, tree, fails) =>
        var _ := m.CommitOverTree(r, tree, fails, map[]);
        step := Pull(r, tree, !fails);
      case SetChains(reg, fails) =>
        m.SetRegistry(reg, fails, map[]);
        step := Swap(reg, !fails);
    }
    ghost var after := m.AsMounted(map[]);
    TraceOn(m.reader, t, before, Do(step), after, m.ignored);
    NewCalls(t, Do(step), after, Do(step), after);
    t' := Then(t, Do(step), after);
  }

  /** One request, whatever it is. A read is answered from the state it finds. */
  method Handle(m: SharedState, q: Request, ghost t: Trace) returns (answer: Option<Bytes>, ghost t': Trace)
    requires m.Valid() && Proper(q) && ProperChains(q)
    requires IsTrace(m.reader, t, m.AsMounted(map[]), m.ignored)
    modifies m, m.overlay, m.inodes
    ensures m.Valid() && IsTrace(m.reader, t', m.AsMounted(map[]), m.ignored) && Served(q, old(SceneOf(m)), t, t')
    ensures q.ReadFile? ==> ReadIn(m.reader, old(m.AsMounted(map[])), q.path, q.broken, answer)
  {
    answer := None;
    match q {
      case ReadFile(p, broken) =>
        ghost var before := m.AsMounted(map[]);
        answer := m.ReadBytes(p, broken);
        t' := ReadAlone(m.reader, t, before, m.AsMounted(map[]), p, broken, m.ignored);
      case WriteRange(_, _, _, _) => t' := HandleWrite(m, q, t);
      case ChangeAttr(_, _, _, _) => t' := HandleAttr(m, q, t);
      case CommitChain(_, _, _, _) => t' := HandleCommit(m, q, t);
      case PullTree(_, _, _) => t' := HandleSync(m, q, t);
      case SetChains(_, _) => t' := HandleSync(m, q, t);
      case _ => t' := HandleStaging(m, q, t);
    }
  }

  /** Request `i` finds the scene given, no commit being in flight, and is served between
      its marks; a read is answered from that scene. */
  ghost predicate Answered(requests: seq<Request>, answers: seq<Option<Bytes>>, scenes: seq<Scene>, t: Trace, marks: seq<nat>, i: nat) {
    && i < |requests| && i < |answers| && i < |scenes| && i + 1 < |marks| && marks[i] < |t.states|
    && scenes[i].at == t.states[marks[i]] && scenes[i].at.world.pending == map[]
    && ServedBetween(requests[i], scenes[i], t, marks[i], marks[i + 1])
    && (requests[i].ReadFile? ==>
          ReadIn(scenes[i].reader, scenes[i].at, requests[i].path, requests[i].broken, answers[i]))
  }

  /** So is every request, the marks dividing the whole trace. */
  ghost predicate Serviced(requests: seq<Request>, answers: seq<Option<Bytes>>, scenes: seq<Scene>, t: Trace, marks: seq<nat>) {
    && |answers| == |scenes| == |requests| && |marks| == |requests| + 1
    && marks[0] == 0 && marks[|requests|] == |t.calls|
    && forall i: nat | i < |requests| :: Answered(requests, answers, scenes, t, marks, i)
  }

  lemma AnsweredStays(requests: seq<Request>, answers: seq<Option<Bytes>>, answer: Option<Bytes>, scenes: seq<Scene>, scene: Scene,
                      t: Trace, t': Trace, marks: seq<nat>, mark: nat, i: nat)
    requires Answered(requests, answers, scenes, t, marks, i) && Continues(t, t')
    ensures Answered(requests, answers + [answer], scenes + [scene], t', marks + [mark], i)
  {
    ServedStays(requests[i], scenes[i], t, t', marks[i], marks[i + 1]);
    assert (marks + [mark])[i] == marks[i] && (marks + [mark])[i + 1] == marks[i + 1];
    assert (answers + [answer])[i] == answers[i] && (scenes + [scene])[i] == scenes[i];
    assert t'.states[marks[i]] == t.states[marks[i]];
  }

  lemma AnsweredNext(requests: seq<Request>, answers: seq<Option<Bytes>>, answer: Option<Bytes>, scenes: seq<Scene>, scene: Scene,
                     t: Trace, t': Trace, marks: seq<nat>, n: nat)
    requires n < |requests| && |answers| == |scenes| == n && |marks| == n + 1 && marks[n] == |t.calls| && |t.states| == |t.calls| + 1
    requires scene.at == t.states[|t.calls|] && scene.at.world.pending == map[] && Served(requests[n], scene, t, t')
    requires requests[n].ReadFile? ==> ReadIn(scene.reader, scene.at, requests[n].path, requests[n].broken, answer)
    ensures Answered(requests, answers + [answer], scenes + [scene], t', marks + [|t'.calls|], n)
  {
    assert t'.calls[|t.calls|..|t'.calls|] == t'.calls[|t.calls|..];
    assert t'.states[|t.calls|] == t.states[|t.calls|];
  }

  /** Any sequence of requests, in any order. The object stays valid and goes along a trace
      of the protocol, in which each request takes just the calls it stands for in the
      scene it finds; every read returns what a read without the cache would there,
      failing only for want of an unreadable object. */
  method Serve(m: SharedState, requests: seq<Request>)
    returns (answers: seq<Option<Bytes>>, ghost scenes: seq<Scene>, ghost t: Trace, ghost marks: seq<nat>)
    requires m.Valid() && forall i | 0 <= i < |requests| :: Proper(requests[i]) && ProperChains(requests[i])
    modifies m, m.overlay, m.inodes
    ensures m.Valid() && IsTrace(m.reader, t, m.AsMounted(map[]), m.ignored)
    ensures t.states[0] == old(m.AsMounted(map[])) && Serviced(requests, answers, scenes, t, marks)
    ensures forall i | 0 <= i < |requests| :: scenes[i].reader == m.reader && scenes[i].ignored == m.ignored
    ensures requests != [] ==> scenes[0] == old(SceneOf(m))
  {
    ghost var start := m.AsMounted(map[]);
    t, marks, answers, scenes := Trace([start], []), [0], [], [];
    for n := 0 to |requests|
      invariant m.Valid() && |answers| == |scenes| == n && |marks| == n + 1 && marks[0] == 0 && marks[n] == |t.calls|
      invariant IsTrace(m.reader, t, m.AsMounted(map[]), m.ignored) && t.states[0] == start
      invariant forall i | 0 <= i < n :: scenes[i].reader == m.reader && scenes[i].ignored == m.ignored
      invariant if n == 0 then SceneOf(m) == old(SceneOf(m)) else scenes[0] == old(SceneOf(m))
      invariant forall i: nat | i < n :: Answered(requests, answers, scenes, t, marks, i)
    {
      var answer;
      ghost var scene := SceneOf(m);
      ghost var t';
      answer, t' := Handle(m, requests[n], t);
      forall i: nat | i < n
        ensures Answered(requests, answers + [answer], scenes + [scene], t', marks + [|t'.calls|], i)
      {
        AnsweredStays(requests, answers, answer, scenes, scene, t, t', marks, |t'.calls|, i);
      }
      AnsweredNext(requests, answers, answer, scenes, scene, t, t', marks, n);
      t, marks, answers, scenes := t', marks + [|t'.calls|], answers + [answer], scenes + [scene];
    }
  }

  /** A commit of an enabled chain for which every object can be had really lands: the
      chain's ref then holds that chain's part of the files live when it was asked for. */
  lemma ReadableCommitLands(rd: Reader, requests: seq<Request>, answers: seq<Option<Bytes>>, scenes: seq<Scene>, t: Trace, marks: seq<nat>,
                            i: nat, chain: Chain)
    requires Answered(requests, answers, scenes, t, marks, i) && AreCalls(rd, t.states, t.calls, scenes[i].ignored)
    requires requests[i].CommitChain? && requests[i].k < |EnabledChains(scenes[i].at.world.reg)|
    requires chain == EnabledChains(scenes[i].at.world.reg)[requests[i].k]
    requires !MissesObject(scenes[i].at.world, scenes[i].ignored, requests[i].broken)
    ensures marks[i + 1] < |t.states|
    ensures var before, after := scenes[i].at.world, t.states[marks[i + 1]].world;
            chain.refName in after.refs
            && IsPart(before.reg, Captured(before, scenes[i].ignored), chain, after.refs[chain.refName])
  {
    var n := marks[i];
    var calls := t.calls[n..marks[i + 1]];
    assert calls[0] == t.calls[n] && calls[1] == t.calls[n + 1];
    assert CallStep(rd, t.states, t.calls, n, scenes[i].ignored);
    assert CallStep(rd, t.states, t.calls, n + 1, scenes[i].ignored);
  }

  // ---- the run behind a trace ------------------------------------------------------

  /** The protocol's steps among the first `n` calls; a read is none. */
  function RunBehind(t: Trace, n: nat): (run: Run)
    requires n <= |t.calls| && |t.states| == |t.calls| + 1
    ensures |run.worlds| == |run.steps| + 1
  {
    if n == 0 then StartAt(t.states[0].world)
    else match t.calls[n - 1]
      case Fetch(_, _) => RunBehind(t, n - 1)
      case Do(step) => Extended(RunBehind(t, n - 1), step, t.states[n].world)
  }

  lemma {:induction false} RunBehindIsRun(rd: Reader, t: Trace, ignored: set<Name>, n: nat)
    requires AreCalls(rd, t.states, t.calls, ignored) && n <= |t.calls|
    ensures var run := RunBehind(t, n);
            IsRun(run, ignored) && run.worlds[0] == t.states[0].world && run.worlds[|run.steps|] == t.states[n].world
  {
    if n == 0 {
      StartIsRun(t.states[0].world, ignored);
    } else {
      RunBehindIsRun(rd, t, ignored, n - 1);
      assert CallStep(rd, t.states, t.calls, n - 1, ignored);
      if t.calls[n - 1].Do? {
        ExtendRun(RunBehind(t, n - 1), t.states[n - 1].world, t.calls[n - 1].step, t.states[n].world, ignored);
      }
    }
  }

  /** Step `j` of the run is call `k` of the trace. */
  ghost predicate IsCall(t: Trace, run: Run, j: nat, k: nat) {
    && j < |run.steps| && j + 1 < |run.worlds| && k < |t.calls| && k + 1 < |t.states|
    && t.calls[k] == Do(run.steps[j])
    && run.worlds[j] == t.states[k].world && run.worlds[j + 1] == t.states[k + 1].world
  }

  ghost predicate IsSomeCall(t: Trace, run: Run, j: nat, n: nat) {
    exists k: nat :: k < n && IsCall(t, run, j, k)
  }

  lemma {:induction false} StepsAreCalls(rd: Reader, t: Trace, ignored: set<Name>, n: nat, j: nat)
    requires AreCalls(rd, t.states, t.calls, ignored) && n <= |t.calls| && j < |RunBehind(t, n).steps|
    ensures IsSomeCall(t, RunBehind(t, n), j, n)
  {
    assert n > 0;
    var run, shorter := RunBehind(t, n), RunBehind(t, n - 1);
    RunBehindIsRun(rd, t, ignored, n - 1);
    if j < |shorter.steps| {
      StepsAreCalls(rd, t, ignored, n - 1, j);
      var k: nat :| k < n - 1 && IsCall(t, shorter, j, k);
      assert IsCall(t, run, j, k);
    } else {
      assert IsCall(t, run, j, n - 1);
    }
  }

  /** Call `k`, if it is a step, is a careful one. */
  ghost predicate CarefulCall(t: Trace, k: nat, ignored: set<Name>) {
    k < |t.calls| && k < |t.states| && t.calls[k].Do? ==> Careful(t.states[k].world, t.calls[k].step, ignored)
  }

  predicate ShowsNothing(call: Call) {
    call.Fetch? || !ChangesTree(call.step)
  }

  /** The object starts well composed and every step is careful. */
  ghost predicate CarefulTrace(rd: Reader, t: Trace, ignored: set<Name>) {
    && AreCalls(rd, t.states, t.calls, ignored) && Good(t.states[0].world, ignored)
    && forall k: nat :: CarefulCall(t, k, ignored)
  }

  /** While every step is careful the object stays well composed. */
  lemma ServingStaysGood(rd: Reader, t: Trace, ignored: set<Name>, n: nat)
    requires CarefulTrace(rd, t, ignored) && n <= |t.calls|
    ensures Good(t.states[n].world, ignored)
  {
    var run := RunBehind(t, n);
    RunBehindIsRun(rd, t, ignored, n);
    forall j: nat | j < |run.steps|
      ensures CarefulStep(run, j, ignored)
    {
      StepsAreCalls(rd, t, ignored, n, j);
      var k: nat :| k < n && IsCall(t, run, j, k);
      assert CarefulCall(t, k, ignored);
    }
    RunStaysGood(run, ignored, |run.steps|);
  }

  /** ... and nothing but staging, pulls and swaps changes the working tree. */
  lemma QuietCall(rd: Reader, t: Trace, ignored: set<Name>, n: nat, p: Path)
    requires CarefulTrace(rd, t, ignored) && n < |t.calls| && ShowsNothing(t.calls[n])
    ensures Working(t.states[n + 1].world, ignored, p) == Working(t.states[n].world, ignored, p)
  {
    ServingStaysGood(rd, t, ignored, n);
    assert CallStep(rd, t.states, t.calls, n, ignored) && CarefulCall(t, n, ignored);
    if t.calls[n].Do? {
      StepKeepsGood(t.states[n].world, t.calls[n].step, t.states[n + 1].world, ignored);
    }
  }

  lemma QuietCalls(q: Request, c: Scene, t: Trace, lo: nat, hi: nat, k: nat)
    requires ServedBetween(q, c, t, lo, hi) && (q.ReadFile? || q.CommitChain?) && lo <= k < hi
    ensures ShowsNothing(t.calls[k])
  {
    var calls := t.calls[lo..hi];
    assert t.calls[k] == calls[k - lo];
  }

  /** Call `k` leaves what `look` sees. */
  predicate Unseen<T(==)>(look: nat -> T, k: nat) {
    look(k + 1) == look(k)
  }

  lemma {:induction false} UnseenAlong<T>(look: nat -> T, lo: nat, hi: nat)
    requires lo <= hi && forall k: nat | lo <= k < hi :: Unseen(look, k)
    ensures look(hi) == look(lo)
    decreases hi - lo
  {
    if lo < hi {
      UnseenAlong(look, lo, hi - 1);
      assert Unseen(look, hi - 1);
    }
  }

  /** Serving a read or a commit shows nothing on the working tree. */
  lemma CommitShowsNothing(rd: Reader, t: Trace, ignored: set<Name>, q: Request, c: Scene, lo: nat, hi: nat, p: Path)
    requires CarefulTrace(rd, t, ignored)
    requires ServedBetween(q, c, t, lo, hi) && (q.ReadFile? || q.CommitChain?)
    ensures Working(t.states[hi].world, ignored, p) == Working(t.states[lo].world, ignored, p)
  {
    var look := (k: nat) => if k < |t.states| then Working(t.states[k].world, ignored, p) else None;
    forall k: nat | lo <= k < hi
      ensures Unseen(look, k)
    {
      QuietCalls(q, c, t, lo, hi, k);
      QuietCall(rd, t, ignored, k, p);
    }
    UnseenAlong(look, lo, hi);
  }

  /** Call `k` stages something else over what the first state has at `p`, or lands it. */
  ghost predicate GivesWayAt(t: Trace, k: nat, p: Path) {
    && k < |t.calls| && k + 1 < |t.states| && t.calls[k].Do? && WellFormed(t.states[k].world.reg)
    && Stays(t.states[0].world, t.states[k].world, p)
    && (|| RestagedAt(t.states[k].world, t.states[k + 1].world, p)
        || LandedAt(t.states[k].world, t.calls[k].step, t.states[k + 1].world, p))
  }

  /** At call `k`, if it is a snapshot of `p`'s owner, a file staged at `p` is live and not
      at a mount root. */
  ghost predicate ReachedAt(t: Trace, k: nat, ignored: set<Name>, p: Path) {
    k < |t.calls| && k < |t.states| && t.calls[k].Do? && t.calls[k].step.Snapshot? ==>
      KeepsCapture(t.states[k].world, t.calls[k].step, ignored, p)
  }

  /** The mark a call lies behind. */
  lemma {:induction false} LastMark(marks: seq<nat>, n: nat, k: nat) returns (i: nat)
    requires n < |marks| && marks[0] == 0 && k < marks[n]
    ensures i < n && marks[i] <= k < marks[i + 1]
  {
    if marks[n - 1] <= k {
      i := n - 1;
    } else {
      i := LastMark(marks, n - 1, k);
    }
  }

  /** Requests find no commit in flight, so a swap hands nothing captured over. */
  lemma SwapsBetweenCommits(requests: seq<Request>, answers: seq<Option<Bytes>>, scenes: seq<Scene>, t: Trace, marks: seq<nat>, k: nat)
    requires Serviced(requests, answers, scenes, t, marks) && k < |t.calls| && k < |t.states|
    requires t.calls[k].Do? && t.calls[k].step.Swap?
    ensures t.states[k].world.pending == map[]
  {
    var i := LastMark(marks, |requests|, k);
    assert Answered(requests, answers, scenes, t, marks, i);
    var calls := t.calls[marks[i]..marks[i + 1]];
    assert calls[k - marks[i]] == t.calls[k];
  }

  /** Whatever is staged when serving starts stays staged until something is staged over it
      or a landed tree holds it, provided every snapshot reaches it. */
  lemma ServingLosesNoWrite(rd: Reader, requests: seq<Request>, answers: seq<Option<Bytes>>, scenes: seq<Scene>, t: Trace, marks: seq<nat>,
                            ignored: set<Name>, n: nat, p: Path)
    requires AreCalls(rd, t.states, t.calls, ignored) && n <= |t.calls|
    requires Serviced(requests, answers, scenes, t, marks)
    requires CaptureHeld(t.states[0].world, ignored, p) && IsStagedChange(t.states[0].world, ignored, p)
    requires forall k: nat :: ReachedAt(t, k, ignored, p)
    ensures Stays(t.states[0].world, t.states[n].world, p) || exists k: nat :: k < n && GivesWayAt(t, k, p)
  {
    var run := RunBehind(t, n);
    RunBehindIsRun(rd, t, ignored, n);
    forall j: nat | j < |run.steps|
      ensures StepKeepsCapture(run, ignored, j, p)
    {
      StepsAreCalls(rd, t, ignored, n, j);
      var k: nat :| k < n && IsCall(t, run, j, k);
      assert ReachedAt(t, k, ignored, p);
      if t.calls[k].step.Swap? {
        SwapsBetweenCommits(requests, answers, scenes, t, marks, k);
      }
    }
    NoStagedWriteLost(run, ignored, 0, |run.steps|, p);
    if !Stays(t.states[0].world, t.states[n].world, p) {
      var j: nat :| j < |run.steps| && GivesWay(run, 0, j, p);
      StepsAreCalls(rd, t, ignored, n, j);
      var k: nat :| k < n && IsCall(t, run, j, k);
      assert GivesWayAt(t, k, p);
    }
  }
}
