/** The in-memory write overlay (crates/softfig-fuse/src/overlay.rs). */
module Overlays {
  import opened Paths
  import opened Trees

  datatype OverlayEntry = StagedFile(data: FileData) | StagedDir(mode: nat) | Removed

  datatype Slot = Slot(generation: nat, entry: OverlayEntry)

  type Slots = map<Path, Slot>

  /** The overlay's whole state as a value. */
  datatype Log = Log(slots: Slots, generation: nat)

  /** No slot is newer than the counter. */
  ghost predicate Stamped(log: Log) {
    forall p | p in log.slots :: log.slots[p].generation <= log.generation
  }

  /** One staging: a fresh generation stamps the entry. */
  function Stage(log: Log, p: Path, e: OverlayEntry): Log {
    Log(log.slots[p := Slot(log.generation + 1, e)], log.generation + 1)
  }

  /** `after` is `before` with every path of `batch` staged anew, in some order,
      and nothing else touched. */
  ghost predicate Restaged(before: Log, after: Log, batch: map<Path, OverlayEntry>) {
    && before.generation <= after.generation
    && after.slots.Keys == before.slots.Keys + batch.Keys
    && (forall p | p in after.slots && p !in batch :: after.slots[p] == before.slots[p])
    && (forall p | p in batch ::
          && after.slots[p].entry == batch[p]
          && before.generation < after.slots[p].generation <= after.generation)
  }

  lemma StageRestages(log: Log, p: Path, e: OverlayEntry)
    ensures Restaged(log, Stage(log, p, e), map[p := e])
  {
  }

  /** Staging one more entry extends the batch. */
  lemma StageExtends(before: Log, now: Log, batch: map<Path, OverlayEntry>, p: Path, e: OverlayEntry)
    requires Restaged(before, now, batch)
    ensures Restaged(before, Stage(now, p, e), batch[p := e])
  {
  }

  lemma RestagedNothing(log: Log)
    ensures Restaged(log, log, map[])
  {
  }

  /** Batches compose, the later one winning. */
  lemma RestagedCompose(a: Log, b: Log, c: Log, first: map<Path, OverlayEntry>, second: map<Path, OverlayEntry>)
    requires Restaged(a, b, first) && Restaged(b, c, second)
    ensures Restaged(a, c, first + second)
  {
  }

  lemma RestagedStamped(a: Log, b: Log, batch: map<Path, OverlayEntry>)
    requires Restaged(a, b, batch) && Stamped(a)
    ensures Stamped(b)
  {
  }

  // ---- absorption ------------------------------------------------------------

  /** The commit at `cutoff` did not capture this slot, or does not own its path. */
  predicate Uncaptured(slots: Slots, cutoff: nat, owned: Path -> bool, p: Path) {
    p in slots && (slots[p].generation > cutoff || !owned(p))
  }

  /** A file or removal under `p` stays behind, so a directory marker at `p` must too. */
  ghost predicate Shelters(slots: Slots, cutoff: nat, owned: Path -> bool, p: Path) {
    exists q :: StrictlyUnder(q, p) && Uncaptured(slots, cutoff, owned, q) && !slots[q].entry.StagedDir?
  }

  /** What is left of the overlay once the commit at `cutoff` has landed. */
  ghost predicate Survives(slots: Slots, cutoff: nat, owned: Path -> bool, p: Path) {
    && p in slots
    && (Uncaptured(slots, cutoff, owned, p)
        || (slots[p].entry.StagedDir? && Shelters(slots, cutoff, owned, p)))
  }

  ghost function Absorbed(slots: Slots, cutoff: nat, owned: Path -> bool): Slots {
    map p | p in slots && Survives(slots, cutoff, owned, p) :: slots[p]
  }

  class Overlay {
    var byPath: Slots
    var generation: nat

    ghost function State(): Log
      reads this
    {
      Log(byPath, generation)
    }

    constructor ()
      ensures State() == Log(map[], 0)
    {
      byPath, generation := map[], 0;
    }

    function Get(p: Path): Option<OverlayEntry>
      reads this
    {
      if p in byPath then Some(byPath[p].entry) else None
    }

    method StageEntry(p: Path, e: OverlayEntry)
      modifies this
      ensures State() == Stage(old(State()), p, e)
    {
      generation := generation + 1;
      byPath := byPath[p := Slot(generation, e)];
    }

    method InsertFile(p: Path, content: Bytes, mode: nat)
      modifies this
      ensures State() == Stage(old(State()), p, StagedFile(FileData(content, mode)))
    {
      StageEntry(p, StagedFile(FileData(content, mode)));
    }

    method InsertDir(p: Path, mode: nat)
      modifies this
      ensures State() == Stage(old(State()), p, StagedDir(mode))
    {
      StageEntry(p, StagedDir(mode));
    }

    method MarkRemoved(p: Path)
      modifies this
      ensures State() == Stage(old(State()), p, Removed)
    {
      StageEntry(p, Removed);
    }

    /** `remove_absorbed`: the first pass drops captured files and removals, the
        second the captured directory markers that shelter no survivor. */
    method RemoveAbsorbed(cutoff: nat, owned: Path -> bool)
      modifies this
      ensures State() == Log(Absorbed(old(byPath), cutoff, owned), old(generation))
    {
      byPath := map p | p in byPath
        && (byPath[p].generation > cutoff || byPath[p].entry.StagedDir? || !owned(p)) :: byPath[p];
      var survivors := set p | p in byPath && !byPath[p].entry.StagedDir?;
      assert forall q :: q in survivors <==>
          Uncaptured(old(byPath), cutoff, owned, q) && !old(byPath)[q].entry.StagedDir?;
      byPath := map p | p in byPath
        && (!byPath[p].entry.StagedDir?
            || byPath[p].generation > cutoff
            || !owned(p)
            || exists f | f in survivors :: StartsWith(f, p) && f != p) :: byPath[p];
      forall p | p in old(byPath)
        ensures p in byPath <==> Survives(old(byPath), cutoff, owned, p)
      {
        if f :| f in survivors && StartsWith(f, p) && f != p {
          assert StrictlyUnder(f, p);
        }
      }
      assert byPath == Absorbed(old(byPath), cutoff, owned);
    }
  }

  /** What a landing does to a directory marker, by what it leaves: it goes exactly when it
      was captured, is owned, and no file or removal is left below it. */
  lemma MarkerGoesIff(slots: Slots, cutoff: nat, owned: Path -> bool, p: Path)
    requires p in slots && slots[p].entry.StagedDir?
    ensures var left := Absorbed(slots, cutoff, owned);
            p !in left <==>
              && slots[p].generation <= cutoff && owned(p)
              && forall q | q in left && StrictlyUnder(q, p) :: left[q].entry.StagedDir?
  {
    var left := Absorbed(slots, cutoff, owned);
    assert forall q :: q in left && !left[q].entry.StagedDir? <==>
                       Uncaptured(slots, cutoff, owned, q) && !slots[q].entry.StagedDir?;
  }

  /** ... and to anything: what is left is as it was, and files and removals go exactly
      when they were captured and are owned. */
  lemma OthersGoIff(slots: Slots, cutoff: nat, owned: Path -> bool, p: Path)
    ensures var left := Absorbed(slots, cutoff, owned);
            && (p in left ==> p in slots && left[p] == slots[p])
            && (p in slots && !slots[p].entry.StagedDir? ==>
                  (p !in left <==> slots[p].generation <= cutoff && owned(p)))
  {
  }

  /** Later absorption of the same chain subsumes an earlier one; with equal
      cutoffs this says absorption is idempotent. */
  lemma AbsorbTwice(slots: Slots, g1: nat, g2: nat, owned: Path -> bool)
    requires g1 <= g2
    ensures Absorbed(Absorbed(slots, g1, owned), g2, owned) == Absorbed(slots, g2, owned)
  {
    var mid := Absorbed(slots, g1, owned);
    forall q
      ensures Uncaptured(mid, g2, owned, q) <==> Uncaptured(slots, g2, owned, q)
    {
      assert Uncaptured(slots, g2, owned, q) ==> Uncaptured(slots, g1, owned, q);
    }
    forall p | p in slots
      ensures Survives(slots, g2, owned, p) <==> p in mid && Survives(mid, g2, owned, p)
    {
      if Shelters(slots, g2, owned, p) {
        var q :| StrictlyUnder(q, p) && Uncaptured(slots, g2, owned, q) && !slots[q].entry.StagedDir?;
        assert Uncaptured(slots, g1, owned, q) && Uncaptured(mid, g2, owned, q);
      }
    }
  }

  /** Files and removals left by two absorptions do not depend on their order. */
  lemma AbsorbCommutes(slots: Slots, g1: nat, own1: Path -> bool, g2: nat, own2: Path -> bool, p: Path)
    requires p in slots && !slots[p].entry.StagedDir?
    ensures p in Absorbed(Absorbed(slots, g1, own1), g2, own2) <==>
            Uncaptured(slots, g1, own1, p) && Uncaptured(slots, g2, own2, p)
    ensures p in Absorbed(Absorbed(slots, g1, own1), g2, own2) <==>
            p in Absorbed(Absorbed(slots, g2, own2), g1, own1)
  {
  }

  /** Directory markers can depend on the order: one above another chain's mount
      outlives the file it shelters when its own chain lands first. */
  lemma AbsorbOrderShowsInDirs()
    ensures exists slots: Slots, own1: Path -> bool, own2: Path -> bool ::
              && (forall p :: !(own1(p) && own2(p)))
              && Absorbed(Absorbed(slots, 2, own1), 2, own2) != Absorbed(Absorbed(slots, 2, own2), 2, own1)
  {
    var d, f := ["projects"], ["projects", "share", "x"];
    var slots: Slots := map[d := Slot(1, StagedDir(0)), f := Slot(2, StagedFile(FileData([], 0)))];
    var own2 := (p: Path) => |p| >= 2 && p[1] == "share";
    var own1 := (p: Path) => !own2(p);
    assert StrictlyUnder(f, d);
    var a := Absorbed(slots, 2, own1);
    assert Uncaptured(slots, 2, own1, f) && Survives(slots, 2, own1, d);
    assert d in Absorbed(a, 2, own2);
    var b := Absorbed(slots, 2, own2);
    assert forall q :: !Uncaptured(slots, 2, own2, q) || q == d;
    assert !Shelters(slots, 2, own2, f);
    assert f !in b;
    assert forall q :: q in b ==> q == d;
    assert d !in Absorbed(b, 2, own1);
  }
}
