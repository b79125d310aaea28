/** What `plan` decides for a dot and what an uncut `apply` makes of it
    (crates/softfig-deploy/src/plan.rs, apply.rs), seen at the dot's own places. */
module Plans {
  import opened Paths
  import Stamp
  import Utf8

  datatype Mode = Symlink | Copy

  datatype Node = Regular(bytes: Bytes) | Link(dest: Path) | Folder

  /** A filesystem, or the part of one below some path (whose own key is then []). */
  type Tree = map<Path, Node>

  /** One resolved dot, its source bytes captured at plan time. */
  datatype Dot = Dot(name: Name, mode: Mode, source: Bytes, rel: Bytes, target: Path, cache: Path)

  datatype Reason = ForeignSymlink | ExistingFile | ExistingDirectory | UnmanagedFile | UnexpectedSymlink

  datatype Action = CreateSymlink | ReplaceManaged | CopyStamped | SkipUnchanged | Conflict(reason: Reason)

  /** What is at and below the places a dot owns. */
  datatype Local = Local(target: Tree, backup: Tree, cache: Tree)

  datatype Progress = Progress(local: Local, ok: bool)

  function Root(t: Tree): Option<Node> {
    if [] in t then Some(t[[]]) else None
  }

  function FileName(p: Path): Name {
    if p == [] then "" else p[|p| - 1]
  }

  /** The bytes a copy dot wants at its target. */
  function Desired(e: Dot): Bytes {
    Stamp.Composed(FileName(e.target), e.source, e.rel)
  }

  /** `decide`; None when reading the live state fails, which fails the whole plan. */
  function Decide(l: Local, e: Dot): Option<Action> {
    match e.mode
    case Symlink =>
      (match Root(l.target)
       case None => Some(CreateSymlink)
       case Some(Link(dest)) =>
         if dest != e.cache then Some(Conflict(ForeignSymlink))
         else
           (match Root(l.cache)
            case None => Some(ReplaceManaged)
            case Some(Regular(bytes)) => if bytes == e.source then Some(SkipUnchanged) else Some(ReplaceManaged)
            case Some(_) => None)
       case Some(Regular(_)) => Some(Conflict(ExistingFile))
       case Some(Folder) => Some(Conflict(ExistingDirectory)))
    case Copy =>
      (match Root(l.target)
       case None => Some(CopyStamped)
       case Some(Regular(bytes)) =>
         if bytes == Desired(e) then Some(SkipUnchanged)
         else if Stamp.HasManagedStamp(bytes) then Some(ReplaceManaged)
         else Some(Conflict(UnmanagedFile))
       case Some(Link(_)) => Some(Conflict(UnexpectedSymlink))
       case Some(Folder) => Some(Conflict(ExistingDirectory)))
  }

  /** Nothing below the places matters to the decision. */
  lemma DecideReadsRoots(l: Local, m: Local, e: Dot)
    requires Root(l.target) == Root(m.target) && (e.mode.Symlink? ==> Root(l.cache) == Root(m.cache))
    ensures Decide(l, e) == Decide(m, e)
  {
  }

  /** The dot's desired state is there. */
  predicate Realised(l: Local, e: Dot) {
    match e.mode
    case Symlink => Root(l.target) == Some(Link(e.cache)) && Root(l.cache) == Some(Regular(e.source))
    case Copy => Root(l.target) == Some(Regular(Desired(e)))
  }

  /** `rename(target, backup)` works: a directory only replaces an empty one, a
      file never replaces a directory. */
  predicate CanBackUp(l: Local) {
    if Root(l.target) == Some(Folder) then l.backup == map[] || l.backup == map[[] := Folder]
    else Root(l.backup) != Some(Folder)
  }

  function BackedUp(l: Local): Local {
    Local(map[], l.target, l.cache)
  }

  function CacheWritten(l: Local, e: Dot): Local {
    l.(cache := l.cache[[] := Regular(e.source)])
  }

  /** What the dot wants its target to be. */
  function Wanted(e: Dot): Node {
    match e.mode
    case Symlink => Link(e.cache)
    case Copy => Regular(Desired(e))
  }

  function Targeted(l: Local, e: Dot): Local {
    l.(target := l.target[[] := Wanted(e)])
  }

  /** `materialize`, uncut: a rename over a directory is what can fail. */
  function Materialized(l: Local, e: Dot): Progress {
    if e.mode.Symlink? && Root(l.cache) == Some(Folder) then Progress(l, false)
    else
      var ready := if e.mode.Symlink? then CacheWritten(l, e) else l;
      if Root(l.target) == Some(Folder) then Progress(ready, false)
      else Progress(Targeted(ready, e), true)
  }

  /** Plan and apply of one dot, uncut. */
  function Finished(l: Local, e: Dot, force: bool): Progress {
    match Decide(l, e)
    case None => Progress(l, false)
    case Some(SkipUnchanged) => Progress(l, true)
    case Some(Conflict(_)) =>
      if !force then Progress(l, true)
      else if !CanBackUp(l) then Progress(l, false)
      else Materialized(BackedUp(l), e)
    case Some(_) => Materialized(l, e)
  }

  /** Where a cut can leave one dot: before, behind the backup, behind the cache, done. */
  predicate OnTheWay(l: Local, m: Local, e: Dot, force: bool) {
    var p := Finished(l, e, force);
    || m == l
    || m == p.local
    || (Decide(l, e).Some? && WillWrite(Decide(l, e).value) && MidMaterialize(l, m, e))
    || (Decide(l, e).Some? && Decide(l, e).value.Conflict? && force && CanBackUp(l)
        && (m == BackedUp(l) || MidMaterialize(BackedUp(l), m, e)))
  }

  predicate WillWrite(a: Action) {
    a.CreateSymlink? || a.ReplaceManaged? || a.CopyStamped?
  }

  predicate MidMaterialize(l: Local, m: Local, e: Dot) {
    m == l || (e.mode.Symlink? && Root(l.cache) != Some(Folder) && m == CacheWritten(l, e))
  }

  /** `plan` marks a dot unchanged exactly when its desired state is there. */
  lemma SkipIffRealised(l: Local, e: Dot)
    ensures Decide(l, e) == Some(SkipUnchanged) <==> Realised(l, e)
  {
  }

  /** Cut one dot anywhere, plan and apply again: the same end. */
  lemma DotConverges(l: Local, m: Local, e: Dot, force: bool)
    requires Decide(l, e).Some? && OnTheWay(l, m, e, force)
    ensures Decide(m, e).Some? && Finished(m, e, force) == Finished(l, e, force)
  {
    if e.mode.Symlink? {
      assert forall n: Local :: CacheWritten(CacheWritten(n, e), e) == CacheWritten(n, e);
    }
  }

  /** An applied dot is realised, or its conflict was left alone; its backup is what
      the target held, if the conflict was forced, and untouched otherwise. */
  lemma DotSettles(l: Local, e: Dot, force: bool)
    requires Finished(l, e, force).ok
    ensures var settled := Finished(l, e, force).local;
            && Finished(settled, e, force) == Progress(settled, true)
            && (Realised(settled, e) || (!force && settled == l && Decide(l, e).value.Conflict?))
            && settled.backup == (if force && Decide(l, e).value.Conflict? then l.target else l.backup)
  {
    SkipIffRealised(Finished(l, e, force).local, e);
  }

  // ---- whose target it is ---------------------------------------------------------

  /** Nothing is at the target, or something only softfig puts there: a link to the dot's
      own cache, or, in copy mode, a regular file with the stamp. */
  predicate IsOurs(l: Local, e: Dot) {
    match Root(l.target)
    case None => true
    case Some(Link(dest)) => e.mode.Symlink? && dest == e.cache
    case Some(Regular(bytes)) => e.mode.Copy? && Stamp.HasManagedStamp(bytes)
    case Some(Folder) => false
  }

  /** Without force a deploy changes nothing at a dot whose target is anybody else's, and
      says so: the plan reports a conflict unless the target has the wanted bytes already. */
  lemma UnforcedSparesForeign(l: Local, e: Dot)
    ensures !IsOurs(l, e) ==> Finished(l, e, false) == Progress(l, true)
    ensures Finished(l, e, false).local.target != l.target ==> IsOurs(l, e)
    ensures Finished(l, e, false).local.backup == l.backup
    ensures Decide(l, e).Some? && Decide(l, e).value.Conflict? <==> !IsOurs(l, e) && !Realised(l, e)
  {
  }

  /** What the conflict says is what is there. */
  lemma ConflictTellsWhy(l: Local, e: Dot)
    requires Decide(l, e).Some? && Decide(l, e).value.Conflict?
    ensures var why := Decide(l, e).value.reason;
            && (why == ExistingDirectory <==> Root(l.target) == Some(Folder))
            && (why == ExistingFile || why == UnmanagedFile <==> Root(l.target).Some? && Root(l.target).value.Regular?)
            && (why == ForeignSymlink || why == UnexpectedSymlink <==> Root(l.target).Some? && Root(l.target).value.Link?)
            && (why == ExistingFile || why == ForeignSymlink ==> e.mode.Symlink?)
            && (why == UnmanagedFile || why == UnexpectedSymlink ==> e.mode.Copy?)
  {
  }

  /** Reading the places fails exactly when the target is the dot's link and its cache is
      no regular file. */
  lemma UnreadableIff(l: Local, e: Dot)
    ensures Decide(l, e).None? <==>
              && e.mode.Symlink? && Root(l.target) == Some(Link(e.cache))
              && Root(l.cache).Some? && !Root(l.cache).value.Regular?
  {
  }

  /** With force, cut anywhere, all that was at and below somebody else's target is there
      still or is the backup, and the target is empty or the wanted one. */
  predicate StillKept(orig: Tree, m: Local, e: Dot) {
    || m.target == orig
    || (m.backup == orig && (m.target == map[] || m.target == map[[] := Wanted(e)]))
  }

  lemma ForcedKeepsForeign(orig: Local, l: Local, m: Local, e: Dot)
    requires !IsOurs(orig, e) && StillKept(orig.target, l, e) && OnTheWay(l, m, e, true)
    ensures StillKept(orig.target, m, e)
  {
    var empty: Tree, put: Tree := map[], map[[] := Wanted(e)];
    assert empty[[] := Wanted(e)] == put && put[[] := Wanted(e)] == put;
  }

  /** Wherever a dot is cut, a link to its cache that was not there before leads to the
      whole source, and the cache holds what it held or the whole source. */
  lemma NewLinkIsFilled(l: Local, m: Local, e: Dot, force: bool)
    requires e.mode.Symlink? && OnTheWay(l, m, e, force)
    ensures Root(m.target) == Some(Link(e.cache)) ==>
              Root(l.target) == Some(Link(e.cache)) || Root(m.cache) == Some(Regular(e.source))
    ensures Root(m.cache) == Root(l.cache) || Root(m.cache) == Some(Regular(e.source))
  {
  }

  // ---- a whole table -------------------------------------------------------------

  /** The first dot whose apply fails, or the length. */
  function FirstFailure(ls: seq<Local>, es: seq<Dot>, force: bool): (f: nat)
    requires |ls| == |es|
    ensures f <= |es|
    ensures forall i | 0 <= i < f :: Finished(ls[i], es[i], force).ok
    ensures f < |es| ==> !Finished(ls[f], es[f], force).ok
  {
    if es == [] then 0
    else if !Finished(ls[0], es[0], force).ok then 0
    else 1 + FirstFailure(ls[1..], es[1..], force)
  }

  predicate Succeeds(ls: seq<Local>, es: seq<Dot>, force: bool)
    requires |ls| == |es|
  {
    FirstFailure(ls, es, force) == |es|
  }

  /** What an uncut apply leaves: it stops at the first failure. */
  function Applied(ls: seq<Local>, es: seq<Dot>, force: bool): (r: seq<Local>)
    requires |ls| == |es|
    ensures |r| == |es|
  {
    var f := FirstFailure(ls, es, force);
    seq(|es|, i requires 0 <= i < |es| => if i <= f then Finished(ls[i], es[i], force).local else ls[i])
  }

  /** A cut while dot `i` was in work: the ones before are done, the ones behind untouched. */
  predicate CutAt(ls: seq<Local>, ms: seq<Local>, es: seq<Dot>, force: bool, i: nat)
    requires |ls| == |ms| == |es|
  {
    && (forall j | 0 <= j < i && j < |es| :: Finished(ls[j], es[j], force) == Progress(ms[j], true))
    && (i < |es| ==> OnTheWay(ls[i], ms[i], es[i], force))
    && (forall j | i < j < |es| :: ms[j] == ls[j])
  }

  predicate Plannable(ls: seq<Local>, es: seq<Dot>)
    requires |ls| == |es|
  {
    forall i | 0 <= i < |es| :: Decide(ls[i], es[i]).Some?
  }

  /** Cut an apply anywhere, plan and apply again: the same targets, caches and
      backups as the uncut run, and the same verdict. */
  lemma CutConverges(ls: seq<Local>, ms: seq<Local>, es: seq<Dot>, force: bool, i: nat)
    requires |ls| == |ms| == |es| && Plannable(ls, es) && CutAt(ls, ms, es, force, i)
    ensures Plannable(ms, es)
    ensures Applied(ms, es, force) == Applied(ls, es, force)
    ensures Succeeds(ms, es, force) == Succeeds(ls, es, force)
  {
    forall j | 0 <= j < |es|
      ensures Decide(ms[j], es[j]).Some? && Finished(ms[j], es[j], force) == Finished(ls[j], es[j], force)
    {
      if j < i {
        DotSettles(ls[j], es[j], force);
      } else if j == i {
        DotConverges(ls[j], ms[j], es[j], force);
      }
    }
    var f, g := FirstFailure(ls, es, force), FirstFailure(ms, es, force);
    assert f == g;
    assert i <= f || f == |es|;
  }

  /** `ms` is where some cut of planning and applying from `ls` left the dots. */
  ghost predicate IsCut(ls: seq<Local>, ms: seq<Local>, es: seq<Dot>, force: bool) {
    |ls| == |ms| == |es| && exists i: nat :: CutAt(ls, ms, es, force, i)
  }

  /** Every state in turn is a cut of planning and applying from the one before. */
  ghost predicate AreCuts(states: seq<seq<Local>>, es: seq<Dot>, force: bool) {
    forall k | 0 <= k < |states| - 1 :: IsCut(states[k], states[k + 1], es, force)
  }

  /** However often a deploy is cut and started again, it is still headed for the
      end the first uncut run would have reached. */
  lemma {:induction false} CutsConverge(states: seq<seq<Local>>, es: seq<Dot>, force: bool, n: nat)
    requires AreCuts(states, es, force) && n < |states| && |states[0]| == |es| && Plannable(states[0], es)
    ensures |states[n]| == |es|
    ensures Plannable(states[n], es)
    ensures Applied(states[n], es, force) == Applied(states[0], es, force)
    ensures Succeeds(states[n], es, force) == Succeeds(states[0], es, force)
  {
    if n > 0 {
      CutsConverge(states, es, force, n - 1);
      assert IsCut(states[n - 1], states[n - 1 + 1], es, force);
      var i: nat :| CutAt(states[n - 1], states[n], es, force, i);
      CutConverges(states[n - 1], states[n], es, force, i);
    }
  }

  /** However often an unforced deploy is cut and started again, a dot whose target is
      somebody else's keeps target, backup and cache as they were. */
  lemma {:induction false} CutsSpareForeign(states: seq<seq<Local>>, es: seq<Dot>, n: nat, i: nat)
    requires AreCuts(states, es, false) && n < |states| && |states[0]| == |es| && i < |es|
    requires !IsOurs(states[0][i], es[i])
    ensures |states[n]| == |es| && states[n][i] == states[0][i]
  {
    if n > 0 {
      CutsSpareForeign(states, es, n - 1, i);
      assert IsCut(states[n - 1], states[n - 1 + 1], es, false);
      CutSparesForeign(states[n - 1], states[n], es, i);
    }
  }

  lemma CutSparesForeign(ls: seq<Local>, ms: seq<Local>, es: seq<Dot>, i: nat)
    requires IsCut(ls, ms, es, false) && i < |es| && !IsOurs(ls[i], es[i])
    ensures ms[i] == ls[i]
  {
    var k: nat :| CutAt(ls, ms, es, false, k);
    UnforcedSparesForeign(ls[i], es[i]);
    assert i < k ==> Finished(ls[i], es[i], false) == Progress(ms[i], true);
  }

  lemma CutLosesNothing(orig: Local, ls: seq<Local>, ms: seq<Local>, es: seq<Dot>, i: nat)
    requires IsCut(ls, ms, es, true) && i < |es|
    requires !IsOurs(orig, es[i]) && StillKept(orig.target, ls[i], es[i])
    ensures StillKept(orig.target, ms[i], es[i])
  {
    var k: nat :| CutAt(ls, ms, es, true, k);
    CutIsOnTheWay(ls, ms, es, true, k, i);
    ForcedKeepsForeign(orig, ls[i], ms[i], es[i]);
  }

  lemma CutIsOnTheWay(ls: seq<Local>, ms: seq<Local>, es: seq<Dot>, force: bool, k: nat, i: nat)
    requires |ls| == |ms| == |es| && CutAt(ls, ms, es, force, k) && i < |es|
    ensures OnTheWay(ls[i], ms[i], es[i], force)
  {
    assert i < k ==> Finished(ls[i], es[i], force) == Progress(ms[i], true);
  }

  /** However often a forced one is, nothing of somebody else's target is lost. */
  lemma {:induction false} CutsLoseNothing(states: seq<seq<Local>>, es: seq<Dot>, n: nat, i: nat)
    requires AreCuts(states, es, true) && n < |states| && |states[0]| == |es| && i < |es|
    requires !IsOurs(states[0][i], es[i])
    ensures |states[n]| == |es| && StillKept(states[0][i].target, states[n][i], es[i])
  {
    if n > 0 {
      CutsLoseNothing(states, es, n - 1, i);
      assert IsCut(states[n - 1], states[n - 1 + 1], es, true);
      CutLosesNothing(states[0][i], states[n - 1], states[n], es, i);
    }
  }

  /** After a successful apply a further plan skips every dot, or, without force,
      reports the same conflict over an untouched target; applying changes nothing. */
  lemma AppliedSettles(ls: seq<Local>, es: seq<Dot>, force: bool, i: nat)
    requires |ls| == |es| && Succeeds(ls, es, force) && i < |es|
    ensures var settled := Applied(ls, es, force);
            && Applied(settled, es, force) == settled && Succeeds(settled, es, force)
            && (|| Decide(settled[i], es[i]) == Some(SkipUnchanged)
                || (!force && settled[i] == ls[i] && Decide(ls[i], es[i]).value.Conflict?))
  {
    var settled := Applied(ls, es, force);
    forall j | 0 <= j < |es|
      ensures Finished(settled[j], es[j], force) == Progress(settled[j], true)
    {
      DotSettles(ls[j], es[j], force);
    }
    DotSettles(ls[i], es[i], force);
    SkipIffRealised(settled[i], es[i]);
    assert FirstFailure(settled, es, force) == |es|;
  }

  // ---- changed sources ----------------------------------------------------------

  /** A deployed copy whose source changed is replaced exactly when its stamp is
      recognised, and is a conflict otherwise; an unchanged source is skipped. */
  lemma RedeployedCopy(l: Local, deployed: Dot, wanted: Dot)
    requires deployed.mode == wanted.mode == Copy && wanted == deployed.(source := wanted.source)
    requires Realised(l, deployed)
    ensures Decide(l, wanted) == Some(
              if wanted.source == deployed.source then SkipUnchanged
              else if Stamp.HasManagedStamp(Desired(deployed)) then ReplaceManaged
              else Conflict(UnmanagedFile))
  {
    if Desired(wanted) == Desired(deployed) {
      Stamp.ComposedInjective(FileName(wanted.target), wanted.source, deployed.source, wanted.rel);
    }
  }

  /** For a text source of a stampable type: a changed managed copy is replaced exactly
      when the stamp of the deployed one can be read back from its head. */
  lemma StaleTextCopyIff(l: Local, deployed: Dot, wanted: Dot, leader: Bytes)
    requires deployed.mode == wanted.mode == Copy && wanted == deployed.(source := wanted.source)
    requires Realised(l, deployed) && wanted.source != deployed.source
    requires Stamp.CommentLeader(FileName(deployed.target)) == Some(leader)
    requires Utf8.ValidUtf8(deployed.source) && Utf8.ValidUtf8(deployed.rel)
    ensures Decide(l, wanted) == Some(ReplaceManaged) <==>
              && Utf8.IsBoundary(Desired(deployed), Stamp.HEAD_LENGTH)
              && (Stamp.HasRoom(deployed.source, leader) || Stamp.ShebangCarriesMarker(deployed.source))
  {
    RedeployedCopy(l, deployed, wanted);
    Stamp.TextRecognisedIff(FileName(deployed.target), deployed.source, deployed.rel, leader);
  }

  /** A copy dot of a type without a comment syntax conflicts with its own output as
      soon as the source changes, unless the old source itself carried the marker. */
  lemma UnstampedCopyConflicts(l: Local, deployed: Dot, wanted: Dot)
    requires deployed.mode == wanted.mode == Copy && wanted == deployed.(source := wanted.source)
    requires Realised(l, deployed) && Stamp.CommentLeader(FileName(deployed.target)) == None
    ensures Decide(l, wanted) == Some(Conflict(UnmanagedFile)) <==>
              wanted.source != deployed.source && !Stamp.HasManagedStamp(deployed.source)
  {
    RedeployedCopy(l, deployed, wanted);
  }
}
