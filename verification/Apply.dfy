/** `plan` and `apply` on a filesystem, one step at a time; a run may be cut after
    any step (crates/softfig-deploy/src/plan.rs, apply.rs). */
module Apply {
  import opened Paths
  import opened Plans

  datatype Outcome = Done | Cut | Failed | NoPlan

  /** A temporary file or link in some directory, under a name nothing else uses. */
  datatype Stray = Stray(dir: Path, node: Node)

  function NodeAt(fs: Tree, x: Path): Option<Node> {
    if x in fs then Some(fs[x]) else None
  }

  /** What is at and below `p`, keyed by the path from `p` on. */
  ghost function Under(fs: Tree, p: Path): (t: Tree)
    ensures forall rel :: rel in t <==> p + rel in fs
    ensures forall rel | rel in t :: t[rel] == fs[p + rel]
    decreases |fs|
  {
    if fs == map[] then map[]
    else
      var x :| x in fs;
      var rest := fs - {x};
      assert x !in rest && fs.Keys == rest.Keys + {x};
      var under := Under(rest, p);
      if p <= x then
        assert p + x[|p|..] == x;
        under[x[|p|..] := fs[x]]
      else
        under
  }

  function BackupOf(e: Dot): Path {
    if e.target == [] then []
    else e.target[..|e.target| - 1] + [FileName(e.target) + ".softfig-bak"]
  }

  ghost function LocalOf(fs: Tree, e: Dot): Local {
    Local(Under(fs, e.target), Under(fs, BackupOf(e)), if e.mode.Symlink? then Under(fs, e.cache) else map[])
  }

  ghost function Locals(fs: Tree, es: seq<Dot>): (ls: seq<Local>)
    ensures |ls| == |es|
  {
    seq(|es|, i requires 0 <= i < |es| => LocalOf(fs, es[i]))
  }

  /** No non-directory stands above `p`. */
  predicate Clear(fs: Tree, p: Path) {
    forall i | 0 <= i < |p| :: p[..i] in fs ==> fs[p[..i]] == Folder
  }

  // ---- where dots live -----------------------------------------------------------

  predicate IsPlace(e: Dot, p: Path) {
    p == e.target || p == BackupOf(e) || (e.mode.Symlink? && p == e.cache)
  }

  /** The dot's own places do not overlap, and its cache is directly under the root. */
  predicate WellPlaced(e: Dot, cacheRoot: Path) {
    && e.target != []
    && (e.mode.Symlink? ==>
          && e.cache == cacheRoot + [e.name]
          && Disjoint(e.target, e.cache) && Disjoint(BackupOf(e), e.cache))
  }

  ghost predicate FarApart(e: Dot, f: Dot) {
    forall p, q | IsPlace(e, p) && IsPlace(f, q) :: Disjoint(p, q)
  }

  /** Targets, backups and caches are distinct and not nested in one another. */
  ghost predicate Apart(es: seq<Dot>, cacheRoot: Path) {
    && (forall i | 0 <= i < |es| :: WellPlaced(es[i], cacheRoot))
    && (forall i, j | 0 <= i < |es| && 0 <= j < |es| && i != j :: FarApart(es[i], es[j]))
  }

  predicate Owns(e: Dot, x: Path) {
    e.target <= x || BackupOf(e) <= x || (e.mode.Symlink? && e.cache <= x)
  }

  predicate IsAbove(e: Dot, x: Path) {
    x < e.target || (e.mode.Symlink? && x < e.cache)
  }

  /** Outside the dot's places only directories above them appeared. */
  ghost predicate Spares(before: Tree, after: Tree, e: Dot) {
    forall x :: Owns(e, x) || NodeAt(after, x) == NodeAt(before, x)
                || (IsAbove(e, x) && x !in before && NodeAt(after, x) == Some(Folder))
  }

  predicate OwnedBySome(es: seq<Dot>, x: Path) {
    exists i | 0 <= i < |es| :: Owns(es[i], x)
  }

  predicate AboveSome(es: seq<Dot>, x: Path) {
    exists i | 0 <= i < |es| :: IsAbove(es[i], x)
  }

  /** Outside all dots' places only directories above them appeared. */
  ghost predicate SparesAll(before: Tree, after: Tree, es: seq<Dot>) {
    forall x :: OwnedBySome(es, x) || NodeAt(after, x) == NodeAt(before, x)
                || (AboveSome(es, x) && x !in before && NodeAt(after, x) == Some(Folder))
  }

  /** Directories appeared at or above `p`, nothing else changed. */
  ghost predicate MadeDirs(before: Tree, after: Tree, p: Path) {
    forall x :: NodeAt(after, x) == NodeAt(before, x) || (x <= p && x !in before && NodeAt(after, x) == Some(Folder))
  }

  /** `node` may have been renamed to `p`, with directories made above it. */
  ghost predicate MaybePut(before: Tree, after: Tree, p: Path, node: Node) {
    forall x :: NodeAt(after, x) == NodeAt(before, x)
                || (x == p && NodeAt(after, x) == Some(node))
                || (x < p && x !in before && NodeAt(after, x) == Some(Folder))
  }

  lemma SameUnder(before: Tree, after: Tree, p: Path)
    requires forall x | p <= x :: NodeAt(after, x) == NodeAt(before, x)
    ensures Under(after, p) == Under(before, p)
  {
    forall rel: Path
      ensures NodeAt(after, p + rel) == NodeAt(before, p + rel)
    {
      assert p <= p + rel;
    }
  }

  lemma PutUnder(before: Tree, after: Tree, p: Path, node: Node)
    requires MaybePut(before, after, p, node) && NodeAt(after, p) == Some(node)
    ensures Under(after, p) == Under(before, p)[[] := node]
  {
    assert p + [] == p;
    forall rel: Path
      ensures NodeAt(after, p + rel) == NodeAt(Under(before, p)[[] := node], rel)
    {
      assert rel != [] ==> |p + rel| > |p|;
      assert NodeAt(Under(before, p), rel) == NodeAt(before, p + rel);
    }
    SameTree(Under(after, p), Under(before, p)[[] := node], after, p);
  }

  /** Far from the changed place nothing changes, and no way is blocked. */
  lemma PutElsewhere(before: Tree, after: Tree, p: Path, node: Node, q: Path)
    requires MaybePut(before, after, p, node) && Disjoint(p, q)
    ensures Under(after, q) == Under(before, q)
    ensures Clear(before, q) ==> Clear(after, q)
  {
    forall x | q <= x
      ensures NodeAt(after, x) == NodeAt(before, x)
    {
    }
    SameUnder(before, after, q);
    forall i | 0 <= i < |q|
      ensures NodeAt(after, q[..i]) == NodeAt(before, q[..i]) || NodeAt(after, q[..i]) == Some(Folder)
    {
      assert q[..i] <= q;
    }
  }

  /** A dot's work leaves another dot's places and the ways to them alone. */
  lemma SparesKeeps(before: Tree, after: Tree, e: Dot, f: Dot, cacheRoot: Path)
    requires Spares(before, after, e) && FarApart(e, f)
    ensures LocalOf(after, f) == LocalOf(before, f)
    ensures Clear(before, f.target) ==> Clear(after, f.target)
    ensures f.mode.Symlink? && Clear(before, f.cache) ==> Clear(after, f.cache)
  {
    forall q | IsPlace(f, q)
      ensures Under(after, q) == Under(before, q)
      ensures Clear(before, q) ==> Clear(after, q)
    {
      SparesPlace(before, after, e, q);
    }
  }

  lemma SparesPlace(before: Tree, after: Tree, e: Dot, q: Path)
    requires Spares(before, after, e)
    requires forall p | IsPlace(e, p) :: Disjoint(p, q)
    ensures Under(after, q) == Under(before, q)
    ensures Clear(before, q) ==> Clear(after, q)
  {
    assert Disjoint(e.target, q) && Disjoint(BackupOf(e), q) && (e.mode.Symlink? ==> Disjoint(e.cache, q));
    forall x | q <= x
      ensures NodeAt(after, x) == NodeAt(before, x)
    {
      FarNotOwned(e.target, q, x);
      FarNotOwned(BackupOf(e), q, x);
      if e.mode.Symlink? {
        FarNotOwned(e.cache, q, x);
      }
    }
    SameUnder(before, after, q);
    forall i | 0 <= i < |q|
      ensures NodeAt(after, q[..i]) == NodeAt(before, q[..i]) || NodeAt(after, q[..i]) == Some(Folder)
    {
      assert q[..i] <= q;
      assert !Owns(e, q[..i]);
    }
  }

  lemma FarNotOwned(p: Path, q: Path, x: Path)
    requires Disjoint(p, q) && q <= x
    ensures !(p <= x) && !(x < p)
  {
    if p <= x {
      PrefixesCompare(p, q, x);
    }
    if x < p {
      PrefixTransitive(p, x, q);
    }
  }

  /** `rename(target, backup)`: everything at and below the target moves. */
  function MovedAside(fs: Tree, target: Path, backup: Path): Tree {
    var places := set x | x in fs.Keys && target <= x :: backup + x[|target|..];
    (map x | x in fs.Keys && !(target <= x) && !(backup <= x) :: fs[x])
    + (map y | y in places && backup <= y && target + y[|backup|..] in fs :: fs[target + y[|backup|..]])
  }

  /** The rename is possible: a directory replaces only an empty one, a file no directory. */
  predicate CanRename(fs: Tree, target: Path, backup: Path) {
    if NodeAt(fs, target) == Some(Folder) then
      AtMostEmpty(fs, backup)
    else
      NodeAt(fs, backup) != Some(Folder)
  }

  lemma CanRenameIff(fs: Tree, e: Dot)
    ensures CanRename(fs, e.target, BackupOf(e)) <==> CanBackUp(LocalOf(fs, e))
  {
    RootUnder(fs, e.target);
    RootUnder(fs, BackupOf(e));
    AtMostEmptyIff(fs, BackupOf(e));
  }

  /** Nothing, or an empty directory. */
  predicate AtMostEmpty(fs: Tree, p: Path) {
    forall x | x in fs.Keys && p <= x :: x == p && fs[x] == Folder
  }

  lemma AtMostEmptyIff(fs: Tree, p: Path)
    ensures AtMostEmpty(fs, p) <==> Under(fs, p) == map[] || Under(fs, p) == map[[] := Folder]
  {
    var t := Under(fs, p);
    if AtMostEmpty(fs, p) {
      forall rel | rel in t
        ensures rel == [] && t[rel] == Folder
      {
        assert p + rel in fs.Keys && p <= p + rel;
      }
      assert [] in t ==> t == map[[] := Folder];
      assert [] !in t ==> t == map[];
    }
    if t == map[] || t == map[[] := Folder] {
      forall x | x in fs.Keys && p <= x
        ensures x == p && fs[x] == Folder
      {
        var rel := x[|p|..];
        assert p + rel == x;
        assert rel in t;
      }
    }
  }

  lemma MovedAsideAt(fs: Tree, target: Path, backup: Path, x: Path)
    requires Disjoint(target, backup)
    ensures NodeAt(MovedAside(fs, target, backup), x) ==
              if target <= x then None
              else if backup <= x then NodeAt(fs, target + x[|backup|..])
              else NodeAt(fs, x)
  {
    if target <= x && backup <= x {
      PrefixesCompare(target, backup, x);
    } else if backup <= x {
      var source := target + x[|backup|..];
      assert source[|target|..] == x[|backup|..];
      assert backup + source[|target|..] == x;
    }
  }

  lemma MovedAsideUnder(fs: Tree, target: Path, backup: Path)
    requires Disjoint(target, backup)
    ensures Under(MovedAside(fs, target, backup), target) == map[]
    ensures Under(MovedAside(fs, target, backup), backup) == Under(fs, target)
  {
    var after := MovedAside(fs, target, backup);
    forall rel: Path
      ensures NodeAt(after, target + rel) == None
      ensures NodeAt(after, backup + rel) == NodeAt(fs, target + rel)
    {
      MovedAsideAt(fs, target, backup, target + rel);
      MovedAsideAt(fs, target, backup, backup + rel);
      assert (backup + rel)[|backup|..] == rel;
      if target <= backup + rel {
        PrefixesCompare(target, backup, backup + rel);
      }
    }
    EmptyUnder(after, target);
    SameTree(Under(after, backup), Under(fs, target), after, backup);
  }

  lemma EmptyUnder(fs: Tree, p: Path)
    requires forall rel :: NodeAt(fs, p + rel) == None
    ensures Under(fs, p) == map[]
  {
    assert forall rel | rel in Under(fs, p) :: NodeAt(fs, p + rel).Some?;
  }

  lemma SameTree(under: Tree, expected: Tree, fs: Tree, p: Path)
    requires under == Under(fs, p)
    requires forall rel :: NodeAt(fs, p + rel) == NodeAt(expected, rel)
    ensures under == expected
  {
    forall rel: Path
      ensures NodeAt(under, rel) == NodeAt(expected, rel)
    {
      assert NodeAt(fs, p + rel) == NodeAt(expected, rel);
    }
  }

  class Deployer {
    var fs: Tree
    var temps: map<nat, Stray>
    var nextTemp: nat
    /** Filesystem steps left before the run is cut. */
    var budget: nat
    const cacheRoot: Path

    constructor (fs: Tree, budget: nat, cacheRoot: Path)
      ensures this.fs == fs && this.budget == budget && this.cacheRoot == cacheRoot && Valid()
    {
      this.fs, this.temps, this.nextTemp, this.budget, this.cacheRoot := fs, map[], 0, budget, cacheRoot;
    }

    predicate Valid()
      reads this
    {
      forall n | n in temps :: n < nextTemp
    }

    /** One atomic filesystem step, or the cut. */
    method Do(next: Tree, nextTemps: map<nat, Stray>) returns (ok: bool)
      requires Valid() && forall n | n in nextTemps :: n < nextTemp
      modifies this
      ensures Valid() && nextTemp == old(nextTemp)
      ensures ok <==> old(budget) > 0
      ensures fs == (if ok then next else old(fs)) && temps == (if ok then nextTemps else old(temps))
      ensures budget == if ok then old(budget) - 1 else 0
    {
      if budget == 0 {
        return false;
      }
      fs, temps, budget := next, nextTemps, budget - 1;
      return true;
    }

    /** `create_dir_all`. */
    method MakeDirs(p: Path) returns (r: Outcome)
      requires Valid()
      modifies this
      ensures Valid() && temps == old(temps) && r != NoPlan
      ensures MadeDirs(old(fs), fs, p)
      ensures r == Done ==> forall i | 0 <= i <= |p| :: NodeAt(fs, p[..i]) == Some(Folder)
      ensures r == Failed ==> exists i | 0 <= i <= |p| :: p[..i] in old(fs) && old(fs)[p[..i]] != Folder
      ensures old(budget) > |p| ==> r != Cut && budget >= old(budget) - |p| - 1
    {
      for i := 0 to |p| + 1
        invariant Valid() && temps == old(temps)
        invariant MadeDirs(old(fs), fs, p)
        invariant forall j | 0 <= j < i :: NodeAt(fs, p[..j]) == Some(Folder)
        invariant forall j | i <= j <= |p| :: NodeAt(fs, p[..j]) == NodeAt(old(fs), p[..j])
        invariant budget >= old(budget) - i
      {
        var dir := p[..i];
        if dir !in fs {
          var ok := Do(fs[dir := Folder], temps);
          if !ok { return Cut; }
          assert forall j | 0 <= j <= |p| && j != i :: |p[..j]| != |dir|;
        } else if fs[dir] != Folder {
          return Failed;
        }
      }
      return Done;
    }

    /** A temporary made in `p`'s directory is renamed to `p`; over a directory the
        rename fails and the temporary is removed. */
    method RenameInto(p: Path, node: Node, tmp: nat) returns (r: Outcome)
      requires Valid() && p != [] && tmp in temps
      modifies this
      ensures Valid() && nextTemp == old(nextTemp) && r != NoPlan
      ensures r != Cut ==> temps == old(temps) - {tmp}
      ensures fs == if r == Done then old(fs)[p := node] else old(fs)
      ensures r == Done ==> NodeAt(old(fs), p) != Some(Folder)
      ensures r == Failed ==> NodeAt(old(fs), p) == Some(Folder)
      ensures old(budget) >= 1 ==> r != Cut && budget == old(budget) - 1
    {
      if p in fs && fs[p] == Folder {
        var ok := Do(fs, temps - {tmp});
        return if ok then Failed else Cut;
      }
      var ok := Do(fs[p := node], temps - {tmp});
      return if ok then Done else Cut;
    }

    /** A new temporary. */
    method NewTemp(dir: Path, node: Node) returns (tmp: nat, ok: bool)
      requires Valid()
      modifies this
      ensures Valid() && fs == old(fs) && tmp !in old(temps)
      ensures ok <==> old(budget) > 0
      ensures ok ==> temps == old(temps)[tmp := Stray(dir, node)] && budget == old(budget) - 1
    {
      tmp := nextTemp;
      nextTemp := nextTemp + 1;
      ok := Do(fs, temps[tmp := Stray(dir, node)]);
    }

    /** `write_atomic`: a temporary in the same directory, filled and renamed. */
    method WriteAtomic(p: Path, bytes: Bytes) returns (r: Outcome)
      requires Valid() && p != []
      modifies this
      ensures Valid() && r != NoPlan && (r != Cut ==> temps == old(temps))
      ensures Put(old(fs), fs, p, Regular(bytes), r)
      ensures old(budget) >= |p| + 3 ==> r != Cut && budget >= old(budget) - |p| - 3
    {
      var dir := p[..|p| - 1];
      r := MakeDirs(dir);
      if r != Done {
        if r == Failed {
          ghost var i :| 0 <= i <= |dir| && dir[..i] in old(fs) && old(fs)[dir[..i]] != Folder;
          ParentBlocked(old(fs), p, i);
        }
        return;
      }
      ghost var made := fs;
      assert NodeAt(made, p) == NodeAt(old(fs), p);
      var tmp, ok := NewTemp(dir, Regular([]));
      if !ok { return Cut; }
      ok := Do(fs, temps[tmp := Stray(dir, Regular(bytes))]);
      if !ok { return Cut; }
      r := RenameInto(p, Regular(bytes), tmp);
    }

    /** `place_symlink`: a temporary link renamed over the target. */
    method PlaceSymlink(p: Path, dest: Path) returns (r: Outcome)
      requires Valid() && p != []
      modifies this
      ensures Valid() && r != NoPlan && (r != Cut ==> temps == old(temps))
      ensures Put(old(fs), fs, p, Link(dest), r)
      ensures old(budget) >= |p| + 2 ==> r != Cut && budget >= old(budget) - |p| - 2
    {
      var dir := p[..|p| - 1];
      r := MakeDirs(dir);
      if r != Done {
        if r == Failed {
          ghost var i :| 0 <= i <= |dir| && dir[..i] in old(fs) && old(fs)[dir[..i]] != Folder;
          ParentBlocked(old(fs), p, i);
        }
        return;
      }
      assert NodeAt(fs, p) == NodeAt(old(fs), p);
      var tmp, ok := NewTemp(dir, Link(dest));
      if !ok { return Cut; }
      r := RenameInto(p, Link(dest), tmp);
    }

    /** `backup_existing`: one rename, over whatever an earlier backup left. */
    method BackUp(e: Dot) returns (r: Outcome)
      requires Valid() && WellPlaced(e, cacheRoot) && e.target in fs
      modifies this
      ensures Valid() && temps == old(temps) && r != NoPlan
      ensures r == Done ==> CanBackUp(old(LocalOf(fs, e))) && LocalOf(fs, e) == BackedUp(old(LocalOf(fs, e)))
      ensures r != Done ==> fs == old(fs)
      ensures r == Failed ==> !CanBackUp(old(LocalOf(fs, e)))
      ensures Spares(old(fs), fs, e)
      ensures forall p | !Owns(e, p) :: NodeAt(fs, p) == NodeAt(old(fs), p)
      ensures old(budget) >= 1 ==> r != Cut && budget >= old(budget) - 1
    {
      CanRenameIff(fs, e);
      if !CanRename(fs, e.target, BackupOf(e)) {
        return Failed;
      }
      var ok := Do(MovedAside(fs, e.target, BackupOf(e)), temps);
      if !ok { return Cut; }
      BackupApart(e);
      MovedAsideLocal(old(fs), e, cacheRoot);
      return Done;
    }

    /** The cache half of `materialize`. */
    method PutCache(e: Dot) returns (r: Outcome)
      requires Valid() && WellPlaced(e, cacheRoot) && e.mode.Symlink? && Clear(fs, e.target) && Clear(fs, e.cache)
      modifies this
      ensures Valid() && r != NoPlan && (r != Cut ==> temps == old(temps))
      ensures Spares(old(fs), fs, e) && Clear(fs, e.target)
      ensures r == Failed ==> Root(old(LocalOf(fs, e)).cache) == Some(Folder)
      ensures r == Done ==> Root(old(LocalOf(fs, e)).cache) != Some(Folder)
      ensures LocalOf(fs, e) == if r == Done then CacheWritten(old(LocalOf(fs, e)), e) else old(LocalOf(fs, e))
      ensures old(budget) >= |e.cache| + 3 ==> r != Cut && budget >= old(budget) - |e.cache| - 3
    {
      r := WriteAtomic(e.cache, e.source);
      CachePut(old(fs), fs, e, r, cacheRoot);
    }

    /** The target half of `materialize`. */
    method PutTarget(e: Dot) returns (r: Outcome)
      requires Valid() && WellPlaced(e, cacheRoot) && Clear(fs, e.target)
      modifies this
      ensures Valid() && r != NoPlan && (r != Cut ==> temps == old(temps))
      ensures Spares(old(fs), fs, e)
      ensures r == Failed ==> Root(old(LocalOf(fs, e)).target) == Some(Folder)
      ensures r == Done ==> Root(old(LocalOf(fs, e)).target) != Some(Folder)
      ensures LocalOf(fs, e) == if r == Done then Targeted(old(LocalOf(fs, e)), e) else old(LocalOf(fs, e))
      ensures old(budget) >= |e.target| + 3 ==> r != Cut && budget >= old(budget) - |e.target| - 3
    {
      BackupApart(e);
      match e.mode {
        case Symlink =>
          r := PlaceSymlink(e.target, e.cache);
        case Copy =>
          var bytes, stamped := Stamp.ComposeCopy(FileName(e.target), e.source, e.rel);
          r := WriteAtomic(e.target, bytes);
      }
      TargetPut(old(fs), fs, e, Wanted(e), r, cacheRoot);
    }

    /** `materialize`. */
    method Materialize(e: Dot) returns (r: Outcome)
      requires Valid() && WellPlaced(e, cacheRoot) && Clear(fs, e.target) && (e.mode.Symlink? ==> Clear(fs, e.cache))
      modifies this
      ensures Valid() && r != NoPlan && (r != Cut ==> temps == old(temps))
      ensures Spares(old(fs), fs, e)
      ensures r != Cut ==> Materialized(old(LocalOf(fs, e)), e) == Progress(LocalOf(fs, e), r == Done)
      ensures r == Cut ==> MidMaterialize(old(LocalOf(fs, e)), LocalOf(fs, e), e)
      ensures old(budget) >= |e.target| + |e.cache| + 6 ==> r != Cut && budget >= old(budget) - |e.target| - |e.cache| - 6
    {
      if e.mode.Symlink? {
        r := PutCache(e);
        if r != Done { return; }
        ghost var written := fs;
        r := PutTarget(e);
        SparesThen(old(fs), written, fs, e);
      } else {
        r := PutTarget(e);
      }
    }

    /** A forced conflict: the target is moved aside, then replaced. */
    method Replace(e: Dot) returns (r: Outcome)
      requires Valid() && WellPlaced(e, cacheRoot) && Clear(fs, e.target) && (e.mode.Symlink? ==> Clear(fs, e.cache))
      requires e.target in fs
      modifies this
      ensures Valid() && r != NoPlan && (r != Cut ==> temps == old(temps))
      ensures Spares(old(fs), fs, e)
      ensures CanBackUp(old(LocalOf(fs, e))) || LocalOf(fs, e) == old(LocalOf(fs, e))
      ensures CanBackUp(old(LocalOf(fs, e))) && r != Cut ==>
                Materialized(BackedUp(old(LocalOf(fs, e))), e) == Progress(LocalOf(fs, e), r == Done)
      ensures r == Done ==> CanBackUp(old(LocalOf(fs, e)))
      ensures r == Cut ==> LocalOf(fs, e) == old(LocalOf(fs, e))
                           || (CanBackUp(old(LocalOf(fs, e))) && MidMaterialize(BackedUp(old(LocalOf(fs, e))), LocalOf(fs, e), e))
      ensures old(budget) >= DotSteps(e) ==> r != Cut && budget >= old(budget) - DotSteps(e)
    {
      r := BackUp(e);
      if r != Done { return; }
      ghost var aside := fs;
      BackupApart(e);
      StillClear(old(fs), aside, e, cacheRoot);
      r := Materialize(e);
      SparesThen(old(fs), aside, fs, e);
    }

    /** One dot of `apply`, its action as planned. */
    method ApplyDot(e: Dot, action: Action, force: bool) returns (r: Outcome)
      requires Valid() && WellPlaced(e, cacheRoot) && Clear(fs, e.target)
      requires e.mode.Symlink? && action != SkipUnchanged ==> Clear(fs, e.cache)
      requires Decide(LocalOf(fs, e), e) == Some(action)
      modifies this
      ensures Valid() && r != NoPlan && (r != Cut ==> temps == old(temps))
      ensures Spares(old(fs), fs, e)
      ensures OnTheWay(old(LocalOf(fs, e)), LocalOf(fs, e), e, force)
      ensures r != Cut ==> Finished(old(LocalOf(fs, e)), e, force) == Progress(LocalOf(fs, e), r == Done)
      ensures old(budget) >= DotSteps(e) ==> r != Cut && budget >= old(budget) - DotSteps(e)
    {
      match action {
        case SkipUnchanged =>
          return Done;
        case Conflict(_) =>
          if !force {
            return Done;
          }
          RootUnder(fs, e.target);
          r := Replace(e);
        case _ =>
          r := Materialize(e);
      }
    }

    /** `plan`: reads every dot's places and changes nothing. */
    method Plan(es: seq<Dot>) returns (plan: Option<seq<Action>>)
      ensures plan.Some? <==> Ready(fs, es)
      ensures plan.Some? ==> ArePlanned(fs, es, plan.value)
      ensures plan.None? <==> exists i | 0 <= i < |es| :: Unreadable(fs, es[i])
      ensures plan.Some? ==> forall i | 0 <= i < |es| :: Says(fs, es[i], plan.value[i])
    {
      var actions: seq<Action> := [];
      for i := 0 to |es|
        invariant |actions| == i
        invariant forall j | 0 <= j < i :: PlanOf(fs, es[j]) == Some(actions[j])
      {
        var action := PlanOf(fs, es[i]);
        if action == None {
          PlanTells(fs, es[i]);
          return None;
        }
        actions := actions + [action.value];
      }
      forall i | 0 <= i < |es|
        ensures !Unreadable(fs, es[i]) && Says(fs, es[i], actions[i])
      {
        PlanTells(fs, es[i]);
      }
      return Some(actions);
    }

    /** `ensure_cache_root`, when some link dot will be touched. */
    method MakeCacheRoot(es: seq<Dot>, actions: seq<Action>) returns (r: Outcome)
      requires Valid() && Apart(es, cacheRoot) && Ready(fs, es) && |actions| == |es|
      modifies this
      ensures Valid() && temps == old(temps) && r != NoPlan
      ensures Locals(fs, es) == old(Locals(fs, es)) && Ready(fs, es) && SparesAll(old(fs), fs, es)
      ensures r == Done ==> forall i | 0 <= i < |es| && es[i].mode.Symlink? && actions[i] != SkipUnchanged :: Clear(fs, es[i].cache)
      ensures r == Failed ==> RootBlocked(old(fs), cacheRoot)
      ensures old(budget) > |cacheRoot| ==> r != Cut && budget >= old(budget) - |cacheRoot| - 1
    {
      SparesAllSelf(fs, es);
      if k :| 0 <= k < |es| && es[k].mode.Symlink? && actions[k] != SkipUnchanged {
        r := MakeDirs(cacheRoot);
        RootMade(old(fs), fs, es, k, cacheRoot);
        if r == Done {
          WaysToCachesClear(fs, es, cacheRoot);
        }
      } else {
        return Done;
      }
    }

    /** `apply`: dot by dot, stopping at the first failure. */
    method Apply(es: seq<Dot>, actions: seq<Action>, force: bool) returns (r: Outcome)
      requires Valid() && Apart(es, cacheRoot) && Ready(fs, es) && ArePlanned(fs, es, actions)
      modifies this
      ensures Valid() && r != NoPlan && (r != Cut ==> temps == old(temps))
      ensures Ready(fs, es) && SparesAll(old(fs), fs, es)
      ensures IsCut(old(Locals(fs, es)), Locals(fs, es), es, force)
      ensures r == Done ==> Succeeds(old(Locals(fs, es)), es, force)
      ensures r == Failed ==> !Succeeds(old(Locals(fs, es)), es, force) || RootBlocked(old(fs), cacheRoot)
      ensures r == Done || (r == Failed && !RootBlocked(old(fs), cacheRoot)) ==>
                Locals(fs, es) == Applied(old(Locals(fs, es)), es, force)
      ensures old(budget) > |cacheRoot| + Steps(es, 0) ==> r != Cut
    {
      ghost var start := Locals(fs, es);
      r := MakeCacheRoot(es, actions);
      if r != Done {
        NothingDone(start, es, force);
        return;
      }
      for i := 0 to |es|
        invariant Valid() && temps == old(temps)
        invariant Ready(fs, es) && SparesAll(old(fs), fs, es)
        invariant AllDone(start, Locals(fs, es), es, force, i)
        invariant forall j | i <= j < |es| && es[j].mode.Symlink? && actions[j] != SkipUnchanged :: Clear(fs, es[j].cache)
        invariant old(budget) > |cacheRoot| + Steps(es, 0) ==> budget >= Steps(es, i)
      {
        ghost var before := fs;
        StillPlanned(old(fs), before, es, i, actions);
        r := ApplyDot(es[i], actions[i], force);
        OthersKept(before, fs, es, i, cacheRoot, actions[i], force);
        SparesAllThen(old(fs), before, fs, es, i);
        if r != Done {
          DotStopped(start, Locals(before, es), Locals(fs, es), es, force, i, r == Failed);
          return;
        }
        DotFinished(start, Locals(before, es), Locals(fs, es), es, force, i);
      }
      AllDoneApplied(start, Locals(fs, es), es, force);
      return Done;
    }

    /** A deploy: plan, then apply. */
    method Deploy(es: seq<Dot>, force: bool) returns (r: Outcome)
      requires Valid() && Apart(es, cacheRoot)
      modifies this
      ensures Valid() && (r != Cut ==> temps == old(temps))
      ensures r == NoPlan <==> !old(Ready(fs, es))
      ensures r == NoPlan ==> fs == old(fs)
      ensures old(Ready(fs, es)) ==>
                && Ready(fs, es) && SparesAll(old(fs), fs, es)
                && IsCut(old(Locals(fs, es)), Locals(fs, es), es, force)
                && (r == Done ==> Succeeds(old(Locals(fs, es)), es, force))
                && (r == Done || (r == Failed && !RootBlocked(old(fs), cacheRoot)) ==>
                      Locals(fs, es) == Applied(old(Locals(fs, es)), es, force))
      ensures !force ==> SparesForeign(old(fs), fs, es)
      ensures force ==> KeepsForeign(old(fs), fs, es)
      ensures NewLinksFilled(old(fs), fs, es)
      ensures old(budget) > |cacheRoot| + Steps(es, 0) ==> r != Cut
    {
      var plan := Plan(es);
      if plan == None {
        NothingForeignTouched(fs, es);
        return NoPlan;
      }
      r := Apply(es, plan.value, force);
      CutFillsLinks(old(fs), fs, es, force);
      if force {
        CutKeepsForeign(old(fs), fs, es);
      } else {
        CutSparesForeignPaths(old(fs), fs, es);
      }
    }
  }

  // ---- somebody else's files -------------------------------------------------------

  /** Something is at the dot's target that softfig did not put there: no link to the dot's
      own cache and, in copy mode, no regular file with the stamp. */
  predicate Foreign(fs: Tree, e: Dot) {
    match NodeAt(fs, e.target)
    case None => false
    case Some(Link(dest)) => !(e.mode.Symlink? && dest == e.cache)
    case Some(Regular(bytes)) => !(e.mode.Copy? && Stamp.HasManagedStamp(bytes))
    case Some(Folder) => true
  }

  /** A non-directory is on the way to what must be read, or the dot's own link leads to
      no regular file. */
  predicate Unreadable(fs: Tree, e: Dot) {
    || !Clear(fs, e.target)
    || (e.mode.Symlink? && NodeAt(fs, e.target) == Some(Link(e.cache))
        && (!Clear(fs, e.cache) || (e.cache in fs && !fs[e.cache].Regular?)))
  }

  /** All a deploy of the dot is after is there. */
  predicate InPlace(fs: Tree, e: Dot) {
    match e.mode
    case Symlink => NodeAt(fs, e.target) == Some(Link(e.cache)) && NodeAt(fs, e.cache) == Some(Regular(e.source))
    case Copy => NodeAt(fs, e.target) == Some(Regular(Desired(e)))
  }

  /** What a planned action says about the filesystem. */
  predicate Says(fs: Tree, e: Dot, action: Action) {
    match action
    case SkipUnchanged => InPlace(fs, e)
    case Conflict(_) => Foreign(fs, e) && !InPlace(fs, e)
    case CreateSymlink => e.mode.Symlink? && e.target !in fs
    case CopyStamped => e.mode.Copy? && e.target !in fs
    case ReplaceManaged => e.target in fs && !Foreign(fs, e) && !InPlace(fs, e)
  }

  lemma PlanTells(fs: Tree, e: Dot)
    ensures PlanOf(fs, e).None? <==> Unreadable(fs, e)
    ensures PlanOf(fs, e).Some? ==> Says(fs, e, PlanOf(fs, e).value)
  {
    UnreadableIff(Roots(fs, e), e);
    SkipIffRealised(Roots(fs, e), e);
  }

  /** At and below the target, the backup and the cache of such a dot nothing changed. */
  ghost predicate SparesForeign(before: Tree, after: Tree, es: seq<Dot>) {
    forall i, x | 0 <= i < |es| && Foreign(before, es[i]) && Owns(es[i], x) :: NodeAt(after, x) == NodeAt(before, x)
  }

  /** All that was at and below the target of such a dot is still there, or is the backup. */
  ghost predicate KeepsForeign(before: Tree, after: Tree, es: seq<Dot>) {
    forall i | 0 <= i < |es| && Foreign(before, es[i]) ::
      || (forall rel :: NodeAt(after, es[i].target + rel) == NodeAt(before, es[i].target + rel))
      || (forall rel :: NodeAt(after, BackupOf(es[i]) + rel) == NodeAt(before, es[i].target + rel))
  }

  /** A link to a cache that was not there before leads to the whole source. */
  ghost predicate NewLinksFilled(before: Tree, after: Tree, es: seq<Dot>) {
    forall i | 0 <= i < |es| && es[i].mode.Symlink? && NodeAt(after, es[i].target) == Some(Link(es[i].cache)) ::
      NodeAt(before, es[i].target) == Some(Link(es[i].cache)) || NodeAt(after, es[i].cache) == Some(Regular(es[i].source))
  }

  lemma CutFillsLinks(before: Tree, after: Tree, es: seq<Dot>, force: bool)
    requires IsCut(Locals(before, es), Locals(after, es), es, force)
    ensures NewLinksFilled(before, after, es)
  {
    var k: nat :| CutAt(Locals(before, es), Locals(after, es), es, force, k);
    forall i | 0 <= i < |es| && es[i].mode.Symlink? && NodeAt(after, es[i].target) == Some(Link(es[i].cache))
      ensures NodeAt(before, es[i].target) == Some(Link(es[i].cache)) || NodeAt(after, es[i].cache) == Some(Regular(es[i].source))
    {
      RootUnder(before, es[i].target);
      RootUnder(after, es[i].target);
      RootUnder(after, es[i].cache);
      CutIsOnTheWay(Locals(before, es), Locals(after, es), es, force, k, i);
      NewLinkIsFilled(LocalOf(before, es[i]), LocalOf(after, es[i]), es[i], force);
    }
  }

  lemma ForeignIsNotOurs(fs: Tree, e: Dot)
    ensures Foreign(fs, e) <==> !IsOurs(LocalOf(fs, e), e)
  {
    RootUnder(fs, e.target);
  }

  lemma SameBelow(before: Tree, after: Tree, p: Path, q: Path, rel: Path)
    requires Under(after, q) == Under(before, p)
    ensures NodeAt(after, q + rel) == NodeAt(before, p + rel)
  {
    assert rel in Under(after, q) <==> rel in Under(before, p);
  }

  lemma NothingForeignTouched(fs: Tree, es: seq<Dot>)
    ensures SparesForeign(fs, fs, es) && KeepsForeign(fs, fs, es)
  {
  }

  lemma SameAt(before: Tree, after: Tree, p: Path, x: Path)
    requires Under(after, p) == Under(before, p) && p <= x
    ensures NodeAt(after, x) == NodeAt(before, x)
  {
    assert p + x[|p|..] == x;
    SameBelow(before, after, p, p, x[|p|..]);
  }

  lemma LocalParts(fs: Tree, e: Dot)
    ensures LocalOf(fs, e).target == Under(fs, e.target) && LocalOf(fs, e).backup == Under(fs, BackupOf(e))
    ensures e.mode.Symlink? ==> LocalOf(fs, e).cache == Under(fs, e.cache)
  {
  }

  lemma SameLocalSamePaths(before: Tree, after: Tree, e: Dot, place: Path, x: Path)
    requires LocalOf(after, e) == LocalOf(before, e) && IsPlace(e, place) && place <= x
    ensures NodeAt(after, x) == NodeAt(before, x)
  {
    LocalParts(before, e);
    LocalParts(after, e);
    SameAt(before, after, place, x);
  }

  lemma CutSparesForeignPaths(before: Tree, after: Tree, es: seq<Dot>)
    requires IsCut(Locals(before, es), Locals(after, es), es, false)
    ensures SparesForeign(before, after, es)
  {
    forall i, x | 0 <= i < |es| && Foreign(before, es[i]) && Owns(es[i], x)
      ensures NodeAt(after, x) == NodeAt(before, x)
    {
      ForeignIsNotOurs(before, es[i]);
      CutSparesForeign(Locals(before, es), Locals(after, es), es, i);
      var e := es[i];
      SameLocalSamePaths(before, after, e, if e.target <= x then e.target else if BackupOf(e) <= x then BackupOf(e) else e.cache, x);
    }
  }

  lemma CutKeepsForeign(before: Tree, after: Tree, es: seq<Dot>)
    requires IsCut(Locals(before, es), Locals(after, es), es, true)
    ensures KeepsForeign(before, after, es)
  {
    forall i | 0 <= i < |es| && Foreign(before, es[i])
      ensures || (forall rel :: NodeAt(after, es[i].target + rel) == NodeAt(before, es[i].target + rel))
              || (forall rel :: NodeAt(after, BackupOf(es[i]) + rel) == NodeAt(before, es[i].target + rel))
    {
      ForeignIsNotOurs(before, es[i]);
      CutLosesNothing(Locals(before, es)[i], Locals(before, es), Locals(after, es), es, i);
      KeptBelow(before, after, es[i]);
    }
  }

  lemma KeptBelow(before: Tree, after: Tree, e: Dot)
    requires StillKept(LocalOf(before, e).target, LocalOf(after, e), e)
    ensures || (forall rel :: NodeAt(after, e.target + rel) == NodeAt(before, e.target + rel))
            || (forall rel :: NodeAt(after, BackupOf(e) + rel) == NodeAt(before, e.target + rel))
  {
    var q := if Under(after, e.target) == Under(before, e.target) then e.target else BackupOf(e);
    forall rel: Path
      ensures NodeAt(after, q + rel) == NodeAt(before, e.target + rel)
    {
      SameBelow(before, after, e.target, q, rel);
    }
  }

  /** Sparing adds up over deploy after deploy. */
  lemma SparesForeignThen(first: Tree, before: Tree, after: Tree, es: seq<Dot>)
    requires SparesForeign(first, before, es) && SparesForeign(before, after, es)
    ensures SparesForeign(first, after, es)
  {
    forall i, x | 0 <= i < |es| && Foreign(first, es[i]) && Owns(es[i], x)
      ensures NodeAt(after, x) == NodeAt(first, x)
    {
      assert Owns(es[i], es[i].target);
      assert NodeAt(before, es[i].target) == NodeAt(first, es[i].target);
      assert Foreign(before, es[i]);
    }
  }

  /** Deploy after deploy on one filesystem, the process dying after the given number of
      steps each time: whatever the cuts, the table stays headed for what one uncut run
      from the first filesystem leaves, and a run that ends has left it. */
  method DeployAgain(first: Tree, budgets: seq<nat>, es: seq<Dot>, force: bool, cacheRoot: Path)
    returns (fs: Tree, r: Outcome, ghost last: Tree)
    requires Apart(es, cacheRoot) && Ready(first, es) && |budgets| > 0
    ensures Ready(fs, es)
    ensures Applied(Locals(fs, es), es, force) == Applied(Locals(first, es), es, force)
    ensures r == Done ==> Succeeds(Locals(first, es), es, force)
    ensures r == Done || (r == Failed && !RootBlocked(last, cacheRoot)) ==>
              Locals(fs, es) == Applied(Locals(first, es), es, force)
    ensures !force ==> SparesForeign(first, fs, es)
    ensures budgets[|budgets| - 1] > |cacheRoot| + Steps(es, 0) ==> r != Cut
  {
    fs, r, last := first, Cut, first;
    NothingForeignTouched(first, es);
    for n := 0 to |budgets|
      invariant Ready(fs, es)
      invariant HeadedFor(Locals(first, es), Locals(fs, es), es, force)
      invariant !force ==> SparesForeign(first, fs, es)
      invariant n > 0 && r == Done ==> Succeeds(Locals(first, es), es, force)
      invariant n > 0 && (r == Done || (r == Failed && !RootBlocked(last, cacheRoot))) ==>
                  Locals(fs, es) == Applied(Locals(first, es), es, force)
      invariant n > 0 && budgets[n - 1] > |cacheRoot| + Steps(es, 0) ==> r != Cut
    {
      var deployer := new Deployer(fs, budgets[n], cacheRoot);
      last := fs;
      r := deployer.Deploy(es, force);
      fs := deployer.fs;
      StillHeadedFor(Locals(first, es), last, fs, es, force);
      if !force {
        SparesForeignThen(first, last, fs, es);
      }
    }
  }

  /** From either state an uncut run ends alike. */
  ghost predicate HeadedFor(ls: seq<Local>, ms: seq<Local>, es: seq<Dot>, force: bool) {
    && |ls| == |ms| == |es|
    && Applied(ms, es, force) == Applied(ls, es, force)
    && (Succeeds(ms, es, force) <==> Succeeds(ls, es, force))
  }

  lemma ReadyIsPlannable(fs: Tree, es: seq<Dot>)
    requires Ready(fs, es)
    ensures Plannable(Locals(fs, es), es)
  {
    forall i | 0 <= i < |es|
      ensures Decide(Locals(fs, es)[i], es[i]).Some?
    {
      PlanOfLocal(fs, es[i]);
    }
  }

  lemma StillHeadedFor(ls: seq<Local>, before: Tree, after: Tree, es: seq<Dot>, force: bool)
    requires HeadedFor(ls, Locals(before, es), es, force) && Ready(before, es)
    requires IsCut(Locals(before, es), Locals(after, es), es, force)
    ensures HeadedFor(ls, Locals(after, es), es, force)
  {
    ReadyIsPlannable(before, es);
    var i: nat :| CutAt(Locals(before, es), Locals(after, es), es, force, i);
    CutConverges(Locals(before, es), Locals(after, es), es, force, i);
  }

  /** What reading the dot's places needs: `symlink_metadata` and `read` find no
      non-directory on the way. */
  predicate Readable(fs: Tree, e: Dot) {
    && Clear(fs, e.target)
    && (e.mode.Symlink? && NodeAt(fs, e.target) == Some(Link(e.cache)) ==> Clear(fs, e.cache))
  }

  /** What `plan` makes of one dot: `decide` on the live state; None when that cannot be read. */
  function PlanOf(fs: Tree, e: Dot): Option<Action> {
    if Readable(fs, e) then Decide(Roots(fs, e), e) else None
  }

  lemma PlanOfLocal(fs: Tree, e: Dot)
    ensures PlanOf(fs, e) == if Readable(fs, e) then Decide(LocalOf(fs, e), e) else None
  {
    RootUnder(fs, e.target);
    RootUnder(fs, e.cache);
    DecideReadsRoots(Roots(fs, e), LocalOf(fs, e), e);
  }

  ghost predicate Ready(fs: Tree, es: seq<Dot>) {
    forall i | 0 <= i < |es| :: PlanOf(fs, es[i]).Some?
  }

  ghost predicate ArePlanned(fs: Tree, es: seq<Dot>, actions: seq<Action>) {
    |actions| == |es| && forall i | 0 <= i < |es| :: PlanOf(fs, es[i]) == Some(actions[i])
  }

  /** A non-directory stands at or above the cache root. */
  predicate RootBlocked(fs: Tree, cacheRoot: Path) {
    exists i | 0 <= i <= |cacheRoot| :: cacheRoot[..i] in fs && fs[cacheRoot[..i]] != Folder
  }

  /** Steps the dots from `i` on can need. */
  function Steps(es: seq<Dot>, i: nat): nat
    decreases |es| - i
  {
    if i >= |es| then 0 else DotSteps(es[i]) + Steps(es, i + 1)
  }

  function RootOnly(fs: Tree, p: Path): Tree {
    if p in fs then map[[] := fs[p]] else map[]
  }

  function Roots(fs: Tree, e: Dot): Local {
    Local(RootOnly(fs, e.target), map[], if e.mode.Symlink? then RootOnly(fs, e.cache) else map[])
  }

  /** An untouched dot is where the plan saw it. */
  lemma StillPlanned(first: Tree, now: Tree, es: seq<Dot>, i: nat, actions: seq<Action>)
    requires ArePlanned(first, es, actions) && Ready(now, es) && i < |es|
    requires Locals(now, es)[i] == Locals(first, es)[i]
    ensures Clear(now, es[i].target) && LocalOf(now, es[i]) == LocalOf(first, es[i])
    ensures Decide(LocalOf(now, es[i]), es[i]) == Some(actions[i])
  {
    PlanOfLocal(first, es[i]);
    assert PlanOf(now, es[i]).Some?;
  }

  /** The dots before `i` are done, the others untouched. */
  ghost predicate AllDone(start: seq<Local>, now: seq<Local>, es: seq<Dot>, force: bool, i: nat)
  {
    && |start| == |now| == |es|
    && (forall j | 0 <= j < i && j < |es| :: Finished(start[j], es[j], force) == Progress(now[j], true))
    && (forall j | i <= j < |es| :: now[j] == start[j])
  }

  lemma NothingDone(start: seq<Local>, es: seq<Dot>, force: bool)
    requires |start| == |es|
    ensures IsCut(start, start, es, force)
  {
    assert CutAt(start, start, es, force, 0);
  }

  lemma AllDoneApplied(start: seq<Local>, now: seq<Local>, es: seq<Dot>, force: bool)
    requires AllDone(start, now, es, force, |es|)
    ensures Succeeds(start, es, force) && now == Applied(start, es, force) && IsCut(start, now, es, force)
  {
    assert FirstFailure(start, es, force) == |es|;
    assert CutAt(start, now, es, force, |es|);
  }

  lemma DotFinished(start: seq<Local>, before: seq<Local>, now: seq<Local>, es: seq<Dot>, force: bool, i: nat)
    requires i < |es| && AllDone(start, before, es, force, i) && |now| == |es|
    requires forall j | 0 <= j < |es| && j != i :: now[j] == before[j]
    requires Finished(start[i], es[i], force) == Progress(now[i], true)
    ensures AllDone(start, now, es, force, i + 1)
  {
  }

  lemma DotStopped(start: seq<Local>, before: seq<Local>, now: seq<Local>, es: seq<Dot>, force: bool, i: nat, failed: bool)
    requires i < |es| && AllDone(start, before, es, force, i) && |now| == |es|
    requires forall j | 0 <= j < |es| && j != i :: now[j] == before[j]
    requires OnTheWay(start[i], now[i], es[i], force)
    requires failed ==> Finished(start[i], es[i], force) == Progress(now[i], false)
    ensures IsCut(start, now, es, force)
    ensures failed ==> !Succeeds(start, es, force) && now == Applied(start, es, force)
  {
    assert CutAt(start, now, es, force, i);
    if failed {
      assert FirstFailure(start, es, force) == i;
      assert now == Applied(start, es, force);
    }
  }

  lemma OwnWayKept(before: Tree, after: Tree, e: Dot, p: Path)
    requires Spares(before, after, e) && IsPlace(e, p) && Clear(before, p)
    requires forall q | IsPlace(e, q) && q != p :: Disjoint(q, p)
    ensures Clear(after, p)
  {
    forall i | 0 <= i < |p|
      ensures NodeAt(after, p[..i]) == NodeAt(before, p[..i]) || NodeAt(after, p[..i]) == Some(Folder)
    {
      AncestorNotOwned(e, p, i);
    }
  }

  lemma OwnWaysKept(before: Tree, after: Tree, e: Dot, cacheRoot: Path)
    requires Spares(before, after, e) && WellPlaced(e, cacheRoot)
    ensures Clear(before, e.target) ==> Clear(after, e.target)
    ensures e.mode.Symlink? && Clear(before, e.cache) ==> Clear(after, e.cache)
  {
    BackupApart(e);
    if Clear(before, e.target) {
      OwnWayKept(before, after, e, e.target);
    }
    if e.mode.Symlink? && Clear(before, e.cache) {
      OwnWayKept(before, after, e, e.cache);
    }
  }

  /** After one dot's work all dots can still be planned, and only this dot moved. */
  lemma OthersKept(before: Tree, after: Tree, es: seq<Dot>, i: nat, cacheRoot: Path, action: Action, force: bool)
    requires i < |es| && Apart(es, cacheRoot) && Ready(before, es) && Spares(before, after, es[i])
    requires Decide(LocalOf(before, es[i]), es[i]) == Some(action)
    requires es[i].mode.Symlink? && action != SkipUnchanged ==> Clear(before, es[i].cache)
    requires OnTheWay(LocalOf(before, es[i]), LocalOf(after, es[i]), es[i], force)
    ensures Ready(after, es)
    ensures forall j | 0 <= j < |es| && j != i :: Locals(after, es)[j] == Locals(before, es)[j]
    ensures forall j | 0 <= j < |es| && j != i && es[j].mode.Symlink? && Clear(before, es[j].cache) :: Clear(after, es[j].cache)
  {
    forall j | 0 <= j < |es|
      ensures PlanOf(after, es[j]).Some?
      ensures j != i ==> LocalOf(after, es[j]) == LocalOf(before, es[j])
      ensures j != i && es[j].mode.Symlink? && Clear(before, es[j].cache) ==> Clear(after, es[j].cache)
    {
      PlanOfLocal(before, es[j]);
      PlanOfLocal(after, es[j]);
      RootUnder(before, es[j].target);
      RootUnder(after, es[j].target);
      if j == i {
        RootUnder(before, es[i].cache);
        SkipIffRealised(LocalOf(before, es[i]), es[i]);
        OwnWaysKept(before, after, es[i], cacheRoot);
        DotConverges(LocalOf(before, es[i]), LocalOf(after, es[i]), es[i], force);
      } else {
        SparesKeeps(before, after, es[i], es[j], cacheRoot);
      }
    }
  }

  lemma SparesAllSelf(fs: Tree, es: seq<Dot>)
    ensures SparesAll(fs, fs, es)
  {
  }

  lemma SparesAllThen(first: Tree, second: Tree, third: Tree, es: seq<Dot>, i: nat)
    requires i < |es| && SparesAll(first, second, es) && Spares(second, third, es[i])
    ensures SparesAll(first, third, es)
  {
    forall x | !OwnedBySome(es, x)
      ensures NodeAt(third, x) == NodeAt(first, x)
              || (AboveSome(es, x) && x !in first && NodeAt(third, x) == Some(Folder))
    {
      assert !Owns(es[i], x);
      assert NodeAt(third, x) == NodeAt(second, x) || (IsAbove(es[i], x) && x !in second && NodeAt(third, x) == Some(Folder));
    }
  }

  /** Making the cache root touches no dot. */
  lemma RootMade(before: Tree, after: Tree, es: seq<Dot>, k: nat, cacheRoot: Path)
    requires k < |es| && es[k].mode.Symlink? && Apart(es, cacheRoot) && Ready(before, es)
    requires MadeDirs(before, after, cacheRoot)
    ensures Locals(after, es) == Locals(before, es) && Ready(after, es) && SparesAll(before, after, es)
  {
    RootIsAbove(before, after, es[k], cacheRoot);
    assert forall x | x <= cacheRoot :: IsAbove(es[k], x);
    forall j | 0 <= j < |es|
      ensures LocalOf(after, es[j]) == LocalOf(before, es[j]) && PlanOf(after, es[j]).Some?
    {
      assert WellPlaced(es[j], cacheRoot) && PlanOf(before, es[j]).Some?;
      PlanOfLocal(before, es[j]);
      PlanOfLocal(after, es[j]);
      BackupApart(es[j]);
      if j != k {
        assert FarApart(es[k], es[j]);
        SparesKeeps(before, after, es[k], es[j], cacheRoot);
      } else {
        RootMadeOwn(before, after, es[k], cacheRoot);
      }
      RootUnder(before, es[j].target);
      RootUnder(after, es[j].target);
    }
    assert Locals(after, es) == Locals(before, es);
  }

  lemma RootIsAbove(before: Tree, after: Tree, e: Dot, cacheRoot: Path)
    requires e.mode.Symlink? && WellPlaced(e, cacheRoot) && MadeDirs(before, after, cacheRoot)
    ensures Spares(before, after, e) && MaybePut(before, after, e.cache, Folder)
    ensures forall x | x <= cacheRoot :: IsAbove(e, x)
  {
    forall x | x <= cacheRoot
      ensures IsAbove(e, x) && x < e.cache
    {
      assert e.cache[..|cacheRoot|] == cacheRoot;
    }
  }

  lemma RootMadeOwn(before: Tree, after: Tree, e: Dot, cacheRoot: Path)
    requires e.mode.Symlink? && WellPlaced(e, cacheRoot) && MadeDirs(before, after, cacheRoot)
    ensures LocalOf(after, e) == LocalOf(before, e)
    ensures Clear(before, e.target) ==> Clear(after, e.target)
    ensures Clear(before, e.cache) ==> Clear(after, e.cache)
  {
    RootIsAbove(before, after, e, cacheRoot);
    OwnWaysKept(before, after, e, cacheRoot);
    PutElsewhere(before, after, e.cache, Folder, e.target);
    PutElsewhere(before, after, e.cache, Folder, BackupOf(e));
    NotAbove(before, after, cacheRoot, e.cache);
  }

  lemma WaysToCachesClear(fs: Tree, es: seq<Dot>, cacheRoot: Path)
    requires Apart(es, cacheRoot)
    requires forall i | 0 <= i <= |cacheRoot| :: NodeAt(fs, cacheRoot[..i]) == Some(Folder)
    ensures forall i | 0 <= i < |es| && es[i].mode.Symlink? :: Clear(fs, es[i].cache)
  {
    forall i | 0 <= i < |es| && es[i].mode.Symlink?
      ensures Clear(fs, es[i].cache)
    {
      assert es[i].cache == cacheRoot + [es[i].name];
      assert forall n | 0 <= n < |es[i].cache| :: es[i].cache[..n] == cacheRoot[..n];
    }
  }

  lemma NotAbove(before: Tree, after: Tree, p: Path, q: Path)
    requires MadeDirs(before, after, p) && p < q
    ensures Under(after, q) == Under(before, q)
  {
    forall x | q <= x
      ensures NodeAt(after, x) == NodeAt(before, x)
    {
      assert |x| > |p|;
    }
    SameUnder(before, after, q);
  }

  /** Filesystem steps one dot can need. */
  function DotSteps(e: Dot): nat {
    |e.target| + |e.cache| + 7
  }

  lemma BackupApart(e: Dot)
    requires e.target != []
    ensures Disjoint(e.target, BackupOf(e))
  {
    var n := |e.target| - 1;
    assert BackupOf(e)[n] == e.target[n] + ".softfig-bak";
    assert |BackupOf(e)[n]| != |e.target[n]|;
  }

  lemma SparesThen(first: Tree, second: Tree, third: Tree, e: Dot)
    requires Spares(first, second, e) && Spares(second, third, e)
    ensures Spares(first, third, e)
  {
    forall x
      ensures Owns(e, x) || NodeAt(third, x) == NodeAt(first, x)
              || (IsAbove(e, x) && x !in first && NodeAt(third, x) == Some(Folder))
    {
      assert Owns(e, x) || NodeAt(second, x) == NodeAt(first, x)
             || (IsAbove(e, x) && x !in first && NodeAt(second, x) == Some(Folder));
      assert Owns(e, x) || NodeAt(third, x) == NodeAt(second, x)
             || (IsAbove(e, x) && x !in second && NodeAt(third, x) == Some(Folder));
    }
  }

  lemma MovedAsideLocal(before: Tree, e: Dot, cacheRoot: Path)
    requires WellPlaced(e, cacheRoot) && Disjoint(e.target, BackupOf(e))
    ensures var after := MovedAside(before, e.target, BackupOf(e));
            && LocalOf(after, e) == BackedUp(LocalOf(before, e))
            && Spares(before, after, e)
            && forall p | !Owns(e, p) :: NodeAt(after, p) == NodeAt(before, p)
  {
    var after := MovedAside(before, e.target, BackupOf(e));
    forall p
      ensures !(e.target <= p) && !(BackupOf(e) <= p) ==> NodeAt(after, p) == NodeAt(before, p)
    {
      MovedAsideAt(before, e.target, BackupOf(e), p);
    }
    MovedAsideUnder(before, e.target, BackupOf(e));
    if e.mode.Symlink? {
      forall x | e.cache <= x
        ensures NodeAt(after, x) == NodeAt(before, x)
      {
        FarNotOwned(e.target, e.cache, x);
        FarNotOwned(BackupOf(e), e.cache, x);
      }
      SameUnder(before, after, e.cache);
    }
  }

  lemma StillClear(before: Tree, after: Tree, e: Dot, cacheRoot: Path)
    requires WellPlaced(e, cacheRoot) && Disjoint(e.target, BackupOf(e))
    requires forall p | !Owns(e, p) :: NodeAt(after, p) == NodeAt(before, p)
    ensures Clear(before, e.target) ==> Clear(after, e.target)
    ensures e.mode.Symlink? && Clear(before, e.cache) ==> Clear(after, e.cache)
  {
    forall i | 0 <= i < |e.target|
      ensures NodeAt(after, e.target[..i]) == NodeAt(before, e.target[..i])
    {
      AncestorNotOwned(e, e.target, i);
    }
    if e.mode.Symlink? {
      forall i | 0 <= i < |e.cache|
        ensures NodeAt(after, e.cache[..i]) == NodeAt(before, e.cache[..i])
      {
        AncestorNotOwned(e, e.cache, i);
      }
    }
  }

  lemma AncestorNotOwned(e: Dot, p: Path, i: nat)
    requires i < |p| && IsPlace(e, p)
    requires forall q | IsPlace(e, q) && q != p :: Disjoint(q, p)
    ensures !Owns(e, p[..i])
  {
    AncestorFree(e.target, p, i);
    AncestorFree(BackupOf(e), p, i);
    if e.mode.Symlink? {
      AncestorFree(e.cache, p, i);
    }
  }

  lemma AncestorFree(q: Path, p: Path, i: nat)
    requires i < |p| && (q == p || Disjoint(q, p))
    ensures !(q <= p[..i])
  {
    var ancestor := p[..i];
    PrefixOf(p, i);
    if q <= ancestor {
      PrefixTransitive(p, ancestor, q);
    }
  }

  lemma PutSpares(before: Tree, after: Tree, p: Path, node: Node, e: Dot)
    requires MaybePut(before, after, p, node) && (p == e.target || (e.mode.Symlink? && p == e.cache))
    ensures Spares(before, after, e)
  {
  }

  /** Writing the cache, cut or not, seen at the dot's places. */
  lemma CachePut(before: Tree, after: Tree, e: Dot, r: Outcome, cacheRoot: Path)
    requires WellPlaced(e, cacheRoot) && e.mode.Symlink? && Clear(before, e.target) && Clear(before, e.cache)
    requires Put(before, after, e.cache, Regular(e.source), r)
    ensures Spares(before, after, e) && Clear(after, e.target)
    ensures r == Failed ==> Root(LocalOf(before, e).cache) == Some(Folder)
    ensures r == Done ==> Root(LocalOf(before, e).cache) != Some(Folder)
    ensures LocalOf(after, e) == if r == Done then CacheWritten(LocalOf(before, e), e) else LocalOf(before, e)
  {
    var node := Regular(e.source);
    RootUnder(before, e.cache);
    PutSpares(before, after, e.cache, node, e);
    PutElsewhere(before, after, e.cache, node, e.target);
    PutElsewhere(before, after, e.cache, node, BackupOf(e));
    PutHere(before, after, e.cache, node, r);
  }

  /** Putting the target, cut or not, seen at the dot's places. */
  lemma TargetPut(before: Tree, after: Tree, e: Dot, node: Node, r: Outcome, cacheRoot: Path)
    requires WellPlaced(e, cacheRoot) && Disjoint(e.target, BackupOf(e)) && Clear(before, e.target)
    requires Put(before, after, e.target, node, r)
    ensures Spares(before, after, e)
    ensures r == Failed ==> Root(LocalOf(before, e).target) == Some(Folder)
    ensures r == Done ==> Root(LocalOf(before, e).target) != Some(Folder)
    ensures LocalOf(after, e) ==
              if r == Done then LocalOf(before, e).(target := LocalOf(before, e).target[[] := node]) else LocalOf(before, e)
  {
    RootUnder(before, e.target);
    PutSpares(before, after, e.target, node, e);
    PutElsewhere(before, after, e.target, node, BackupOf(e));
    if e.mode.Symlink? {
      PutElsewhere(before, after, e.target, node, e.cache);
    }
    PutHere(before, after, e.target, node, r);
  }

  lemma RootUnder(fs: Tree, p: Path)
    ensures Root(Under(fs, p)) == NodeAt(fs, p)
  {
    assert p + [] == p;
  }

  lemma PutHere(before: Tree, after: Tree, p: Path, node: Node, r: Outcome)
    requires Put(before, after, p, node, r)
    ensures Under(after, p) == if r == Done then Under(before, p)[[] := node] else Under(before, p)
  {
    if r == Done {
      PutUnder(before, after, p, node);
    } else {
      SameUnder(before, after, p);
    }
  }

  lemma ParentBlocked(fs: Tree, p: Path, i: nat)
    requires p != [] && i < |p|
    requires p[..|p| - 1][..i] in fs && fs[p[..|p| - 1][..i]] != Folder
    ensures !Clear(fs, p)
  {
    assert p[..|p| - 1][..i] == p[..i];
  }

  /** What putting a file or link at `p` does, cut or not. */
  ghost predicate Put(before: Tree, after: Tree, p: Path, node: Node, r: Outcome) {
    && MaybePut(before, after, p, node)
    && (r == Done ==> NodeAt(after, p) == Some(node) && NodeAt(before, p) != Some(Folder))
    && (r != Done ==> NodeAt(after, p) == NodeAt(before, p))
    && (r == Failed ==> NodeAt(before, p) == Some(Folder) || !Clear(before, p))
  }
}
