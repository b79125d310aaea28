/** Inode numbers for paths (crates/softfig-fuse/src/inodes.rs). */
module Inodes {
  import opened Paths

  const ROOT_INODE := 1

  /** The two maps and the allocation counter as a value. */
  datatype Table = Table(byPath: map<Path, nat>, byInode: map<nat, Path>, next: nat)

  const FreshTable := Table(map[[] := ROOT_INODE], map[ROOT_INODE := []], ROOT_INODE + 1)

  function Interned(t: Table, p: Path): Table {
    if p in t.byPath then t
    else Table(t.byPath[p := t.next], t.byInode[t.next := p], t.next + 1)
  }

  function Forgotten(t: Table, p: Path): Table {
    if p in t.byPath then Table(t.byPath - {p}, t.byInode - {t.byPath[p]}, t.next) else t
  }

  function Renamed(t: Table, from: Path, to: Path): Table {
    if from in t.byPath then
      var i := t.byPath[from];
      Table((t.byPath - {from})[to := i], t.byInode[i := to], t.next)
    else t
  }

  /** Every interned path's inode leads back to it, and every inode was allocated. */
  ghost predicate Consistent(t: Table) {
    && (forall p | p in t.byPath :: t.byPath[p] in t.byInode && t.byInode[t.byPath[p]] == p)
    && (forall i | i in t.byInode :: i < t.next)
  }

  /** The maps are inverse to each other. */
  ghost predicate Bijective(t: Table) {
    && Consistent(t)
    && forall i | i in t.byInode :: t.byInode[i] in t.byPath && t.byPath[t.byInode[i]] == i
  }

  class InodeMap {
    var byPath: map<Path, nat>
    var byInode: map<nat, Path>
    var next: nat

    ghost function State(): Table
      reads this
    {
      Table(byPath, byInode, next)
    }

    constructor ()
      ensures State() == FreshTable
    {
      byPath := map[[] := ROOT_INODE];
      byInode := map[ROOT_INODE := []];
      next := ROOT_INODE + 1;
    }

    method Intern(p: Path) returns (inode: nat)
      modifies this
      ensures State() == Interned(old(State()), p)
      ensures p in byPath && inode == byPath[p]
    {
      if p in byPath {
        return byPath[p];
      }
      inode := next;
      next := next + 1;
      byPath := byPath[p := inode];
      byInode := byInode[inode := p];
    }

    function PathOf(inode: nat): Option<Path>
      reads this
    {
      if inode in byInode then Some(byInode[inode]) else None
    }

    method Forget(p: Path)
      modifies this
      ensures State() == Forgotten(old(State()), p)
    {
      if p in byPath {
        var i := byPath[p];
        byPath := byPath - {p};
        byInode := byInode - {i};
      }
    }

    method Rename(from: Path, to: Path)
      modifies this
      ensures State() == Renamed(old(State()), from, to)
    {
      if from in byPath {
        var i := byPath[from];
        byPath := byPath - {from};
        byInode := byInode[i := to];
        byPath := byPath[to := i];
      }
    }
  }

  // ---- runs ------------------------------------------------------------------

  datatype Call = Intern(path: Path) | Forget(path: Path) | Rename(from: Path, to: Path)

  function Apply(t: Table, c: Call): Table {
    match c
    case Intern(p) => Interned(t, p)
    case Forget(p) => Forgotten(t, p)
    case Rename(from, to) => Renamed(t, from, to)
  }

  /** The table after the first `n` calls on a fresh one. */
  function TableAfter(calls: seq<Call>, n: nat): Table
    requires n <= |calls|
  {
    if n == 0 then FreshTable else Apply(TableAfter(calls, n - 1), calls[n - 1])
  }

  lemma CallKeepsConsistent(t: Table, c: Call)
    requires Consistent(t)
    ensures Consistent(Apply(t, c)) && t.next <= Apply(t, c).next
  {
  }

  lemma NextNeverDrops(t: Table, c: Call)
    ensures t.next <= Apply(t, c).next
  {
  }

  /** A rename keeps the maps inverse exactly when it has nothing to overwrite. */
  lemma RenameBijectiveIff(t: Table, from: Path, to: Path)
    requires Bijective(t) && from in t.byPath
    ensures Bijective(Renamed(t, from, to)) <==> to == from || to !in t.byPath
    ensures to in Renamed(t, from, to).byPath && Renamed(t, from, to).byPath[to] == t.byPath[from]
  {
    var after := Renamed(t, from, to);
    if to != from && to in t.byPath {
      var stale := t.byPath[to];
      assert stale != t.byPath[from];
      assert stale in after.byInode && after.byInode[stale] == to;
    }
  }

  /** The other paths and their inodes, going by both maps. */
  predicate OthersKept(t: Table, t': Table, p: Path, q: Path) {
    forall x | x in t.byPath && x != p && x != q ::
      x in t'.byPath && t'.byPath[x] == t.byPath[x]
      && (t.byPath[x] in t.byInode && t.byInode[t.byPath[x]] == x ==>
            t.byPath[x] in t'.byInode && t'.byInode[t.byPath[x]] == x)
  }

  /** What the three calls do, by what can be looked up: a new path gets a number no
      inode has, a forgotten one loses its number both ways, a renamed one takes its own
      along; no other path is touched. */
  lemma CallsAreExact(t: Table, p: Path, to: Path)
    requires Consistent(t)
    ensures var t' := Interned(t, p);
            && p in t'.byPath && OthersKept(t, t', p, p) && t'.byPath.Keys == t.byPath.Keys + {p}
            && t'.byInode[t'.byPath[p]] == p
            && (if p in t.byPath then t' == t else t'.byPath[p] !in t.byInode)
    ensures var t' := Forgotten(t, p);
            && OthersKept(t, t', p, p) && t'.byPath.Keys == t.byPath.Keys - {p} && t'.next == t.next
            && (p in t.byPath ==> t.byPath[p] !in t'.byInode)
    ensures var t' := Renamed(t, p, to);
            && OthersKept(t, t', p, to) && t'.next == t.next
            && (if p in t.byPath
                then && t'.byPath.Keys == t.byPath.Keys - {p} + {to}
                     && t'.byPath[to] == t.byPath[p] && t'.byInode[t.byPath[p]] == to
                else t' == t)
  {
  }

  predicate FreeDestination(t: Table, c: Call) {
    c.Rename? ==> c.to == c.from || c.to !in t.byPath
  }

  /** The first `n` calls rename onto free paths only. */
  predicate FreeDestinations(calls: seq<Call>, n: nat)
    requires n <= |calls|
  {
    forall k: nat | k < n :: FreeCall(calls, k)
  }

  predicate FreeCall(calls: seq<Call>, k: nat) {
    k < |calls| && FreeDestination(TableAfter(calls, k), calls[k])
  }

  lemma {:induction false} RunsStayConsistent(calls: seq<Call>, n: nat)
    requires n <= |calls|
    ensures Consistent(TableAfter(calls, n))
    ensures FreeDestinations(calls, n) ==> Bijective(TableAfter(calls, n))
  {
    if n > 0 {
      RunsStayConsistent(calls, n - 1);
      var t, c := TableAfter(calls, n - 1), calls[n - 1];
      CallKeepsConsistent(t, c);
      if FreeDestinations(calls, n) {
        assert FreeCall(calls, n - 1);
        CallKeepsBijective(t, c);
      }
    }
  }

  lemma CallKeepsBijective(t: Table, c: Call)
    requires Bijective(t) && FreeDestination(t, c)
    ensures Bijective(Apply(t, c))
  {
    if c.Rename? && c.from in t.byPath {
      RenameBijectiveIff(t, c.from, c.to);
    }
  }

  /** An inode handed out for a new path was never an inode of any earlier state of
      the run: numbers are not reused, even after the path they named is forgotten. */
  lemma InodesNeverReissued(calls: seq<Call>, k: nat, n: nat, p: Path)
    requires k <= n <= |calls| && p !in TableAfter(calls, n).byPath
    ensures var inode := Interned(TableAfter(calls, n), p).byPath[p];
            forall i | i in TableAfter(calls, k).byInode :: i < inode
  {
    RunsStayConsistent(calls, k);
    NextGrows(calls, k, n);
  }

  lemma {:induction false} NextGrows(calls: seq<Call>, k: nat, n: nat)
    requires k <= n <= |calls|
    ensures TableAfter(calls, k).next <= TableAfter(calls, n).next
    decreases n - k
  {
    if k < n {
      NextGrows(calls, k, n - 1);
      NextNeverDrops(TableAfter(calls, n - 1), calls[n - 1]);
    }
  }
}
