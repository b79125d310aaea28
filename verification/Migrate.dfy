/** The resumable account move, one filesystem step at a time
    (crates/softfig-cli/src/cmd_claude_login.rs). A run may be cut after any step. */
module Migrate {
  import opened Paths

  /** The names a slot links into the home config dir (slot_layout.rs, class Shared). */
  datatype SharedName =
    | SettingsJson | SettingsLocalJson | KeybindingsJson | StatusLineSh | ClaudeMd
    | Plugins | Skills | Agents | Commands | Projects

  /** A directory entry's name: `.credentials.json`, `.claude.json`, `active`, a shared
      name, a temporary (which carries the process and a counter), or any other. */
  datatype EntryName =
    | Credentials | Account | Active
    | Shared(link: SharedName)
    | Temp(of: EntryName, pid: nat, n: nat)
    | Other(name: string)

  datatype Target = HomeEntry(name: EntryName) | SlotNamed(slot: string) | Elsewhere

  datatype Node = Regular(bytes: Bytes) | Link(target: Target) | OtherNode

  type Entries = map<EntryName, Node>

  datatype Place = Missing | Obstacle | Folder(entries: Entries)

  /** The part of the disk a migrate touches: the home account's files, the staging
      directory, the slot it becomes, and the store's own entries. */
  datatype Disk = Disk(home: Entries, staging: Place, slot: Place, store: Entries)

  /** `rename(2)` between two places: it works, crosses filesystems, or fails. */
  datatype Mover = Renames | CrossesDevices | Fails

  datatype Outcome = Done | Cut | Refused

  const SHARED_NAMES: seq<SharedName> :=
    [SettingsJson, SettingsLocalJson, KeybindingsJson, StatusLineSh, ClaudeMd,
     Plugins, Skills, Agents, Commands, Projects]

  /** Steps an uncut run can need: the staging directory, two moves of at most four
      steps, the links, the final rename, the active link. */
  const MOST_STEPS := 12 + |SHARED_NAMES|

  function EntriesOf(p: Place): Entries {
    if p.Folder? then p.entries else map[]
  }

  function NodeAt(entries: Entries, x: EntryName): Option<Node> {
    if x in entries then Some(entries[x]) else None
  }

  /** Of the three named locations, some hold exactly these bytes under the name and
      none holds anything else. None: there is no such file in any. */
  predicate Intact(d: Disk, x: EntryName, original: Option<Bytes>) {
    var home, staged, slotted := NodeAt(d.home, x), NodeAt(EntriesOf(d.staging), x), NodeAt(EntriesOf(d.slot), x);
    && NothingElse(home, original) && NothingElse(staged, original) && NothingElse(slotted, original)
    && (original.Some? ==> home.Some? || staged.Some? || slotted.Some?)
  }

  predicate NothingElse(found: Option<Node>, original: Option<Bytes>) {
    found.Some? ==> original.Some? && found.value == Regular(original.value)
  }

  /** There is one content all named copies have, or no copy. */
  ghost predicate Agrees(d: Disk, x: EntryName) {
    exists original :: Intact(d, x, original)
  }

  /** Whatever one content the name had, it still has. */
  ghost predicate Keeps(before: Disk, after: Disk, x: EntryName) {
    forall original | Intact(before, x, original) :: Intact(after, x, original)
  }

  /** Whatever staging holds under a shared name is the right link. */
  ghost predicate LinksProper(d: Disk) {
    forall link: SharedName | Shared(link) in EntriesOf(d.staging) ::
      EntriesOf(d.staging)[Shared(link)] == Link(HomeEntry(Shared(link)))
  }

  /** Before the final rename: the account files are in home or staging, and staging
      holds only proper links beside them. */
  ghost predicate Resumable(d: Disk, creds: Bytes, account: Option<Bytes>) {
    && d.slot == Missing && d.staging != Obstacle
    && Intact(d, Credentials, Some(creds)) && Intact(d, Account, account)
    && LinksProper(d)
  }

  /** After the final rename: the slot is there with the one named copy of each file. */
  ghost predicate Arrived(d: Disk, creds: Bytes, account: Option<Bytes>) {
    && d.slot.Folder? && d.staging == Missing
    && Credentials !in d.home && Account !in d.home
    && NodeAt(d.slot.entries, Credentials) == Some(Regular(creds))
    && NodeAt(d.slot.entries, Account) == (if account.Some? then Some(Regular(account.value)) else None)
  }

  /** Every shared name that exists at home is the right link in `entries`. */
  predicate SharedLinked(home: Entries, entries: Entries) {
    forall link: SharedName | Shared(link) in home ::
      NodeAt(entries, Shared(link)) == Some(Link(HomeEntry(Shared(link))))
  }

  /** At home only the account files differ. */
  ghost predicate HomeKept(before: Disk, after: Disk) {
    forall y | y != Credentials && y != Account :: NodeAt(after.home, y) == NodeAt(before.home, y)
  }

  /** In the store only the active link and its temporaries differ. */
  ghost predicate StoreKept(before: Disk, after: Disk) {
    forall y | y != Active && !IsTempOf(y, Active) :: NodeAt(after.store, y) == NodeAt(before.store, y)
  }

  /** The file the slot gets under an account name: the one at home, else the staged one. */
  function Chosen(d: Disk, x: EntryName): Option<Node> {
    if x in d.home then Some(d.home[x]) else NodeAt(EntriesOf(d.staging), x)
  }

  /** What `entries` has under `y`, account names and temporaries apart: a link for a
      shared name there is at home, else what staging had. */
  predicate SlotEntry(before: Disk, entries: Entries, y: EntryName) {
    NodeAt(entries, y) ==
      if y.Shared? && y in before.home then Some(Link(HomeEntry(y))) else NodeAt(EntriesOf(before.staging), y)
  }

  /** What any run leaves, however it ended. A slot that exists, a running claude, a source
      that is no regular file, nothing to move and something in place of the staging
      directory are refused before anything is touched. */
  ghost predicate RunOutcome(before: Disk, after: Disk, claudeLive: bool, r: Outcome, slotName: string) {
    && HomeKept(before, after) && StoreKept(before, after)
    && (before.slot != Missing ==> after == before && r == Refused)
    && (claudeLive ==> after == before && r == Refused)
    && (Credentials in before.home && !before.home[Credentials].Regular? ==> after == before && r == Refused)
    && (Account in before.home && !before.home[Account].Regular? ==> after == before && r == Refused)
    && (Credentials !in before.home && Credentials !in EntriesOf(before.staging) ==> after == before && r == Refused)
    && (before.staging == Obstacle ==> after == before && r == Refused)
    && (r == Done ==>
          && after.slot.Folder? && after.staging == Missing && Credentials !in after.home && Account !in after.home
          && NodeAt(after.slot.entries, Credentials) == Chosen(before, Credentials)
          && NodeAt(after.slot.entries, Account) == Chosen(before, Account)
          && Credentials in after.slot.entries
          && (forall y | y != Credentials && y != Account && !y.Temp? :: SlotEntry(before, after.slot.entries, y))
          && (after.slot.entries[Credentials].Regular? <==>
                Credentials in before.home || before.staging.entries[Credentials].Regular?))
    && Keeps(before, after, Credentials) && Keeps(before, after, Account)
    && (forall creds, account | Resumable(before, creds, account) ::
          && (Resumable(after, creds, account) || Arrived(after, creds, account))
          && (r == Done ==> Arrived(after, creds, account)))
    && (r == Done ==> NodeAt(after.store, Active) == Some(Link(SlotNamed(slotName))))
    && (r == Done ==> after.slot.Folder? && SharedLinked(after.home, after.slot.entries))
  }

  /** The active link is absent or really a link, and its temporary name is free. */
  predicate ActiveFree(d: Disk, pid: nat) {
    && (Active in d.store ==> d.store[Active].Link?)
    && Temp(Active, pid, 2) !in d.store
  }

  predicate TemporariesFree(d: Disk, pid: nat) {
    Temp(Credentials, pid, 0) !in EntriesOf(d.staging) && Temp(Account, pid, 0) !in EntriesOf(d.staging)
  }

  /** `move_once` has a way: the file is gone already, or is a regular file that staging
      has an equal copy of, or that can be moved there. */
  predicate CanMoveOnce(d: Disk, x: EntryName, mover: Mover, pid: nat) {
    x in d.home ==>
      && d.home[x].Regular?
      && if x in EntriesOf(d.staging) then EntriesOf(d.staging)[x] == d.home[x]
         else mover != Fails && (mover.CrossesDevices? ==> Temp(x, pid, 0) !in EntriesOf(d.staging))
  }

  /** Staging has nothing, or the right link, under every shared name there is at home. */
  predicate LinksFit(d: Disk) {
    forall link: SharedName | Shared(link) in d.home && Shared(link) in EntriesOf(d.staging) ::
      EntriesOf(d.staging)[Shared(link)] == Link(HomeEntry(Shared(link)))
  }

  /** Exactly when a run that is not cut goes through. */
  predicate GoesThrough(d: Disk, claudeLive: bool, credsMover: Mover, accountMover: Mover, pid: nat) {
    && d.slot == Missing && d.staging != Obstacle && !claudeLive
    && (Credentials in d.home || Credentials in EntriesOf(d.staging))
    && CanMoveOnce(d, Credentials, credsMover, pid) && CanMoveOnce(d, Account, accountMover, pid)
    && LinksFit(d) && ActiveFree(d, pid)
  }

  /** Nothing outside the protocol stands in a re-run's way. */
  ghost predicate CanComplete(d: Disk, claudeLive: bool, credsMover: Mover, accountMover: Mover, pid: nat) {
    && !claudeLive && credsMover != Fails && accountMover != Fails
    && ActiveFree(d, pid) && TemporariesFree(d, pid)
    && exists creds, account :: Resumable(d, creds, account)
  }

  lemma CompletableGoesThrough(d: Disk, claudeLive: bool, credsMover: Mover, accountMover: Mover, pid: nat)
    requires CanComplete(d, claudeLive, credsMover, accountMover, pid)
    ensures GoesThrough(d, claudeLive, credsMover, accountMover, pid)
  {
    var creds, account :| Resumable(d, creds, account);
    FitsIntact(d, Credentials, Some(creds), credsMover, pid);
    FitsIntact(d, Account, account, accountMover, pid);
  }

  lemma FitsIntact(d: Disk, x: EntryName, original: Option<Bytes>, mover: Mover, pid: nat)
    requires Intact(d, x, original) && mover != Fails && Temp(x, pid, 0) !in EntriesOf(d.staging)
    ensures CanMoveOnce(d, x, mover, pid)
  {
    assert NothingElse(NodeAt(d.home, x), original) && NothingElse(NodeAt(EntriesOf(d.staging), x), original);
  }

  predicate IsTempOf(y: EntryName, x: EntryName) {
    y.Temp? && y.of == x
  }

  /** Between two disks only `x`, and temporaries of `x` in staging, differ. */
  ghost predicate OnlyMoved(before: Disk, after: Disk, x: EntryName) {
    && after.slot == before.slot && after.store == before.store
    && before.staging.Folder? && after.staging.Folder?
    && (forall y | y != x :: NodeAt(after.home, y) == NodeAt(before.home, y))
    && (forall y | y != x && !IsTempOf(y, x) ::
          NodeAt(after.staging.entries, y) == NodeAt(before.staging.entries, y))
  }

  /** Between two disks only entries of staging under shared names differ. */
  ghost predicate OnlyLinked(before: Disk, after: Disk) {
    && after.home == before.home && after.slot == before.slot && after.store == before.store
    && before.staging.Folder? && after.staging.Folder?
    && forall y: EntryName | !y.Shared? :: NodeAt(after.staging.entries, y) == NodeAt(before.staging.entries, y)
  }

  /** Moving one file leaves another, its temporaries and the links alone. */
  lemma MoveKeeps(before: Disk, after: Disk, moved: EntryName, x: EntryName)
    requires OnlyMoved(before, after, moved)
    requires moved != x && !moved.Shared? && !moved.Temp? && !x.Temp?
    ensures Keeps(before, after, x)
    ensures LinksProper(before) ==> LinksProper(after)
    ensures LinksFit(before) <==> LinksFit(after)
    ensures Chosen(after, x) == Chosen(before, x)
    ensures forall mover, pid :: CanMoveOnce(after, x, mover, pid) <==> CanMoveOnce(before, x, mover, pid)
    ensures forall pid: nat, n: nat :: NodeAt(after.staging.entries, Temp(x, pid, n)) == NodeAt(before.staging.entries, Temp(x, pid, n))
  {
    assert NodeAt(after.home, x) == NodeAt(before.home, x);
    assert NodeAt(after.staging.entries, x) == NodeAt(before.staging.entries, x);
    forall link: SharedName
      ensures NodeAt(after.staging.entries, Shared(link)) == NodeAt(before.staging.entries, Shared(link))
      ensures NodeAt(after.home, Shared(link)) == NodeAt(before.home, Shared(link))
    {
    }
    forall pid: nat, n: nat
      ensures NodeAt(after.staging.entries, Temp(x, pid, n)) == NodeAt(before.staging.entries, Temp(x, pid, n))
    {
      assert !IsTempOf(Temp(x, pid, n), moved);
    }
  }

  lemma LinkingKeeps(before: Disk, after: Disk, x: EntryName)
    requires OnlyLinked(before, after) && !x.Shared?
    ensures Keeps(before, after, x)
  {
    assert NodeAt(after.staging.entries, x) == NodeAt(before.staging.entries, x);
  }

  lemma SameEntries(start: Disk, credsMoved: Disk, moved: Disk)
    requires OnlyMoved(start, credsMoved, Credentials) && OnlyMoved(credsMoved, moved, Account)
    ensures forall entries: Entries, y | y != Credentials && y != Account && !y.Temp? ::
              SlotEntry(moved, entries, y) <==> SlotEntry(start, entries, y)
  {
    forall y: EntryName | y != Credentials && y != Account && !y.Temp?
      ensures NodeAt(moved.home, y) == NodeAt(start.home, y)
      ensures NodeAt(moved.staging.entries, y) == NodeAt(start.staging.entries, y)
    {
      assert NodeAt(credsMoved.home, y) == NodeAt(start.home, y);
      assert NodeAt(credsMoved.staging.entries, y) == NodeAt(start.staging.entries, y);
    }
  }

  lemma KeepsThen(first: Disk, second: Disk, third: Disk, x: EntryName)
    requires Keeps(first, second, x) && Keeps(second, third, x)
    ensures Keeps(first, third, x)
    ensures Agrees(first, x) ==> Agrees(second, x)
  {
  }

  /** The final rename: the staged files become the slot's. */
  lemma RenameArrives(d: Disk, renamed: Disk, x: EntryName)
    requires d.slot == Missing && d.staging.Folder? && x !in d.home
    requires renamed == d.(slot := d.staging, staging := Missing)
    ensures Keeps(d, renamed, x)
    ensures forall original | Intact(d, x, original) ::
              NodeAt(renamed.slot.entries, x) == if original.Some? then Some(Regular(original.value)) else None
  {
    forall original | Intact(d, x, original)
      ensures Intact(renamed, x, original)
      ensures NodeAt(renamed.slot.entries, x) == if original.Some? then Some(Regular(original.value)) else None
    {
      assert NodeAt(renamed.slot.entries, x) == NodeAt(EntriesOf(d.staging), x);
    }
  }

  lemma SharedNamesComplete(link: SharedName)
    ensures exists j :: 0 <= j < |SHARED_NAMES| && SHARED_NAMES[j] == link
  {
    assert SHARED_NAMES[0] == SettingsJson && SHARED_NAMES[1] == SettingsLocalJson && SHARED_NAMES[2] == KeybindingsJson
           && SHARED_NAMES[3] == StatusLineSh && SHARED_NAMES[4] == ClaudeMd && SHARED_NAMES[5] == Plugins
           && SHARED_NAMES[6] == Skills && SHARED_NAMES[7] == Agents && SHARED_NAMES[8] == Commands
           && SHARED_NAMES[9] == Projects;
  }

  /** The link is one of the first `i` of the list. */
  predicate AmongFirst(link: SharedName, i: nat) {
    exists j | 0 <= j < i && j < |SHARED_NAMES| :: SHARED_NAMES[j] == link
  }

  /** The first `i` shared names are linked, where there is something at home to link to,
      and what staging had there before was the right link. */
  ghost predicate LinkedUpto(home: Entries, before: Entries, now: Entries, i: nat) {
    && (forall y: EntryName ::
          NodeAt(now, y) ==
            if y.Shared? && y in home && AmongFirst(y.link, i) then Some(Link(HomeEntry(y))) else NodeAt(before, y))
    && (forall link | AmongFirst(link, i) && Shared(link) in home && Shared(link) in before ::
          before[Shared(link)] == Link(HomeEntry(Shared(link))))
  }

  lemma LinkNext(home: Entries, before: Entries, now: Entries, i: nat)
    requires i < |SHARED_NAMES| && LinkedUpto(home, before, now, i)
    ensures var x := Shared(SHARED_NAMES[i]);
            && (x !in home || NodeAt(now, x) == Some(Link(HomeEntry(x))) ==> LinkedUpto(home, before, now, i + 1))
            && (x in home && NodeAt(now, x) == None ==> LinkedUpto(home, before, now[x := Link(HomeEntry(x))], i + 1))
            && (x in home && NodeAt(now, x) != None && NodeAt(now, x) != Some(Link(HomeEntry(x))) ==>
                  x in before && before[x] != Link(HomeEntry(x)))
  {
    var next := SHARED_NAMES[i];
    forall link: SharedName
      ensures AmongFirst(link, i + 1) <==> AmongFirst(link, i) || link == next
    {
    }
    assert NodeAt(now, Shared(next)) == NodeAt(before, Shared(next)) || NodeAt(now, Shared(next)) == Some(Link(HomeEntry(Shared(next))));
  }

  /** Linking touches nothing else, and keeps proper links proper. */
  lemma LinkedKeeps(before: Disk, after: Disk, i: nat)
    requires before.staging.Folder? && after.staging.Folder? && after == before.(staging := after.staging)
    requires LinkedUpto(before.home, before.staging.entries, after.staging.entries, i)
    ensures OnlyLinked(before, after)
    ensures LinksProper(before) ==> LinksProper(after)
  {
    if LinksProper(before) {
      forall link: SharedName | Shared(link) in after.staging.entries
        ensures after.staging.entries[Shared(link)] == Link(HomeEntry(Shared(link)))
      {
        assert NodeAt(after.staging.entries, Shared(link)).Some?;
      }
    }
  }

  /** The whole list is every shared name. */
  lemma LinkedAll(before: Disk, after: Disk)
    requires before.staging.Folder? && after.staging.Folder? && after == before.(staging := after.staging)
    requires LinkedUpto(before.home, before.staging.entries, after.staging.entries, |SHARED_NAMES|)
    ensures SharedLinked(after.home, after.staging.entries) && LinksFit(before)
    ensures forall y :: SlotEntry(before, after.staging.entries, y)
  {
    forall link: SharedName
      ensures AmongFirst(link, |SHARED_NAMES|)
    {
      SharedNamesComplete(link);
    }
  }

  class Machine {
    var disk: Disk
    /** Filesystem steps left before the run is cut. */
    var budget: nat
    const slotName: string

    constructor (disk: Disk, budget: nat, slotName: string)
      ensures this.disk == disk && this.budget == budget && this.slotName == slotName
    {
      this.disk, this.budget, this.slotName := disk, budget, slotName;
    }

    /** One atomic filesystem step, or the cut. */
    method Do(next: Disk) returns (ok: bool)
      modifies this
      ensures ok <==> old(budget) > 0
      ensures disk == if ok then next else old(disk)
      ensures budget == if ok then old(budget) - 1 else 0
    {
      if budget == 0 {
        return false;
      }
      disk, budget := next, budget - 1;
      return true;
    }

    /** `move_file`: `x` is a regular file at home and staging has no such name. */
    method MoveFile(x: EntryName, mover: Mover, pid: nat) returns (r: Outcome)
      requires disk.staging.Folder?
      requires x in disk.home && disk.home[x].Regular?
      requires x !in disk.staging.entries
      modifies this
      ensures OnlyMoved(old(disk), disk, x)
      ensures Keeps(old(disk), disk, x)
      ensures r == Done ==> x !in disk.home && NodeAt(disk.staging.entries, x) == Some(old(disk.home[x]))
      ensures r != Done ==> x in disk.home
      ensures mover != Fails && old(budget) >= 4 && Temp(x, pid, 0) !in old(disk.staging).entries ==>
                r == Done && budget >= old(budget) - 4
      ensures old(budget) >= 4 ==>
                r != Cut && budget >= old(budget) - 4
                && (r == Done <==> mover != Fails && (mover.CrossesDevices? ==> Temp(x, pid, 0) !in old(disk.staging).entries))
    {
      var node := disk.home[x];
      match mover {
        case Fails => return Refused;
        case Renames =>
          var ok := Do(disk.(home := disk.home - {x}, staging := Folder(disk.staging.entries[x := node])));
          return if ok then Done else Cut;
        case CrossesDevices =>
          var tmp := Temp(x, pid, 0);
          if tmp in disk.staging.entries {
            // `create_new` fails; the error path removes the temporary it could not create.
            var ok := Do(disk.(staging := Folder(disk.staging.entries - {tmp})));
            return if ok then Refused else Cut;
          }
          var ok := Do(disk.(staging := Folder(disk.staging.entries[tmp := Regular([])])));
          if !ok { return Cut; }
          ok := Do(disk.(staging := Folder(disk.staging.entries[tmp := Regular(node.bytes)])));
          if !ok { return Cut; }
          ok := Do(disk.(staging := Folder((disk.staging.entries - {tmp})[x := Regular(node.bytes)])));
          if !ok { return Cut; }
          ok := Do(disk.(home := disk.home - {x}));
          return if ok then Done else Cut;
      }
    }

    /** `move_once`: move, or find that an earlier run already did, or finish its copy. */
    method MoveOnce(x: EntryName, mover: Mover, pid: nat) returns (r: Outcome)
      requires disk.staging.Folder?
      modifies this
      ensures OnlyMoved(old(disk), disk, x)
      ensures Keeps(old(disk), disk, x)
      ensures r == Done ==> x !in disk.home && NodeAt(disk.staging.entries, x) == old(Chosen(disk, x))
      ensures mover != Fails && old(budget) >= 4 && Temp(x, pid, 0) !in old(disk.staging).entries && Agrees(old(disk), x) ==>
                r == Done && budget >= old(budget) - 4
      ensures old(budget) >= 4 ==>
                r != Cut && budget >= old(budget) - 4 && (r == Done <==> old(CanMoveOnce(disk, x, mover, pid)))
    {
      if x !in disk.home {
        return Done;
      }
      if !disk.home[x].Regular? {
        return Refused;
      }
      if x !in disk.staging.entries {
        r := MoveFile(x, mover, pid);
        return;
      }
      if disk.staging.entries[x] != disk.home[x] {
        return Refused;
      }
      var ok := Do(disk.(home := disk.home - {x}));
      return if ok then Done else Cut;
    }

    /** `link_shared`: a link per shared name that exists at home; a correct link is
        kept, anything else in the way is refused. */
    method LinkShared() returns (r: Outcome)
      requires disk.staging.Folder?
      modifies this
      ensures OnlyLinked(old(disk), disk)
      ensures old(LinksProper(disk)) ==> LinksProper(disk)
      ensures r == Done ==> SharedLinked(disk.home, disk.staging.entries)
      ensures r == Done ==> forall y :: SlotEntry(old(disk), disk.staging.entries, y)
      ensures old(LinksProper(disk)) && old(budget) >= |SHARED_NAMES| ==>
                r == Done && budget >= old(budget) - |SHARED_NAMES|
      ensures old(budget) >= |SHARED_NAMES| ==>
                r != Cut && budget >= old(budget) - |SHARED_NAMES| && (r == Done <==> old(LinksFit(disk)))
    {
      ghost var home, before := disk.home, disk.staging.entries;
      for i := 0 to |SHARED_NAMES|
        invariant disk == old(disk).(staging := disk.staging) && disk.staging.Folder?
        invariant LinkedUpto(home, before, disk.staging.entries, i)
        invariant budget >= old(budget) - i
      {
        var x := Shared(SHARED_NAMES[i]);
        LinkNext(home, before, disk.staging.entries, i);
        if x in disk.home {
          match NodeAt(disk.staging.entries, x) {
            case None =>
              var ok := Do(disk.(staging := Folder(disk.staging.entries[x := Link(HomeEntry(x))])));
              if !ok {
                LinkedKeeps(old(disk), disk, i);
                return Cut;
              }
            case Some(node) =>
              if node != Link(HomeEntry(x)) {
                LinkedKeeps(old(disk), disk, i);
                return Refused;
              }
          }
        }
      }
      LinkedKeeps(old(disk), disk, |SHARED_NAMES|);
      LinkedAll(old(disk), disk);
      return Done;
    }

    /** `set_active` for a store slot: a temporary link renamed over the old one. */
    method SetActive(pid: nat) returns (r: Outcome)
      modifies this
      ensures disk.home == old(disk.home) && disk.staging == old(disk.staging) && disk.slot == old(disk.slot)
      ensures StoreKept(old(disk), disk)
      ensures r == Done ==> NodeAt(disk.store, Active) == Some(Link(SlotNamed(slotName)))
      ensures r != Done ==> NodeAt(disk.store, Active) == NodeAt(old(disk.store), Active)
      ensures old(budget) >= 2 ==> r != Cut && (r == Done <==> old(ActiveFree(disk, pid)))
    {
      var tmp := Temp(Active, pid, 2);
      if Active in disk.store && !disk.store[Active].Link? {
        return Refused;
      }
      if tmp in disk.store {
        return Refused;
      }
      var ok := Do(disk.(store := disk.store[tmp := Link(SlotNamed(slotName))]));
      if !ok { return Cut; }
      ok := Do(disk.(store := (disk.store - {tmp})[Active := Link(SlotNamed(slotName))]));
      return if ok then Done else Cut;
    }

    /** The middle of `migrate`: both account files into staging, then the links. */
    method Gather(credsMover: Mover, accountMover: Mover, pid: nat) returns (r: Outcome)
      requires disk.staging.Folder?
      modifies this
      ensures disk.staging.Folder? && disk.slot == old(disk.slot) && disk.store == old(disk.store)
      ensures Keeps(old(disk), disk, Credentials) && Keeps(old(disk), disk, Account)
      ensures old(LinksProper(disk)) ==> LinksProper(disk)
      ensures HomeKept(old(disk), disk)
      ensures r == Done ==> Credentials !in disk.home && Account !in disk.home
      ensures r == Done ==> SharedLinked(disk.home, disk.staging.entries)
      ensures r == Done ==> forall y | y != Credentials && y != Account && !y.Temp? :: SlotEntry(old(disk), disk.staging.entries, y)
      ensures credsMover != Fails && accountMover != Fails && old(TemporariesFree(disk, pid)) && old(LinksProper(disk))
              && Agrees(old(disk), Credentials) && Agrees(old(disk), Account) && old(budget) >= 8 + |SHARED_NAMES| ==>
                r == Done && budget >= old(budget) - 8 - |SHARED_NAMES|
      ensures r == Done ==>
                && NodeAt(disk.staging.entries, Credentials) == old(Chosen(disk, Credentials))
                && NodeAt(disk.staging.entries, Account) == old(Chosen(disk, Account))
      ensures old(budget) >= 8 + |SHARED_NAMES| ==>
                && r != Cut && budget >= old(budget) - 8 - |SHARED_NAMES|
                && (r == Done <==>
                      old(CanMoveOnce(disk, Credentials, credsMover, pid)) && old(CanMoveOnce(disk, Account, accountMover, pid))
                      && old(LinksFit(disk)))
    {
      ghost var start := disk;
      r := MoveOnce(Credentials, credsMover, pid);
      ghost var credsMoved := disk;
      MoveKeeps(start, credsMoved, Credentials, Account);
      if r != Done { return; }
      r := MoveOnce(Account, accountMover, pid);
      ghost var moved := disk;
      MoveKeeps(credsMoved, moved, Account, Credentials);
      KeepsThen(start, credsMoved, moved, Credentials);
      KeepsThen(start, credsMoved, moved, Account);
      assert NodeAt(moved.home, Credentials) == NodeAt(credsMoved.home, Credentials);
      assert NodeAt(moved.staging.entries, Credentials) == NodeAt(credsMoved.staging.entries, Credentials);
      if r != Done { return; }
      r := LinkShared();
      assert r == Done ==> forall y | y != Credentials && y != Account && !y.Temp? :: SlotEntry(moved, disk.staging.entries, y);
      SameEntries(start, credsMoved, moved);
      LinkingKeeps(moved, disk, Credentials);
      LinkingKeeps(moved, disk, Account);
      KeepsThen(start, moved, disk, Credentials);
      KeepsThen(start, moved, disk, Account);
    }

    /** The end of `migrate`: staging becomes the slot, then the active link is set. */
    method Finish(pid: nat) returns (r: Outcome)
      requires disk.staging.Folder? && disk.slot == Missing && Credentials !in disk.home && Account !in disk.home
      modifies this
      ensures Keeps(old(disk), disk, Credentials) && Keeps(old(disk), disk, Account)
      ensures disk.home == old(disk.home) && StoreKept(old(disk), disk)
      ensures disk == old(disk) || (disk.staging == Missing && disk.slot == old(disk.staging))
      ensures forall creds, account | Resumable(old(disk), creds, account) && disk != old(disk) :: Arrived(disk, creds, account)
      ensures r == Done ==> disk.staging == Missing && NodeAt(disk.store, Active) == Some(Link(SlotNamed(slotName)))
      ensures old(budget) >= 3 ==> r != Cut && (r == Done <==> old(ActiveFree(disk, pid)))
    {
      ghost var gathered := disk;
      var ok := Do(disk.(slot := disk.staging, staging := Missing));
      if !ok { return Cut; }
      RenameArrives(gathered, disk, Credentials);
      RenameArrives(gathered, disk, Account);
      r := SetActive(pid);
    }

    /** `migrate`. `claudeLive` is the process probe's answer; the two movers are how
        `rename(2)` behaves for each file this time. */
    method Run(claudeLive: bool, credsMover: Mover, accountMover: Mover, pid: nat) returns (r: Outcome)
      modifies this
      ensures RunOutcome(old(disk), disk, claudeLive, r, slotName)
      ensures CanComplete(old(disk), claudeLive, credsMover, accountMover, pid) && old(budget) >= MOST_STEPS ==> r == Done
      ensures old(budget) >= MOST_STEPS ==>
                r != Cut && (r == Done <==> GoesThrough(old(disk), claudeLive, credsMover, accountMover, pid))
    {
      if CanComplete(disk, claudeLive, credsMover, accountMover, pid) {
        CompletableGoesThrough(disk, claudeLive, credsMover, accountMover, pid);
      }
      if disk.slot != Missing || claudeLive {
        return Refused;
      }
      if (Credentials in disk.home && !disk.home[Credentials].Regular?)
         || (Account in disk.home && !disk.home[Account].Regular?) {
        return Refused;
      }
      if Credentials !in disk.home && !(disk.staging.Folder? && Credentials in disk.staging.entries) {
        return Refused;
      }
      match disk.staging {
        case Obstacle => return Refused;
        case Folder(_) =>
        case Missing =>
          var ok := Do(disk.(staging := Folder(map[])));
          if !ok { return Cut; }
      }
      ghost var made := disk;
      assert forall creds, account | Resumable(old(disk), creds, account) :: Resumable(made, creds, account);
      r := Gather(credsMover, accountMover, pid);
      if r != Done { return; }
      ghost var gathered := disk;
      r := Finish(pid);
    }
  }

  // ---- any number of runs ------------------------------------------------------

  /** Disks and outcomes of successive runs, each cut, refused or finished; `lives` says
      whether claude was running. */
  ghost predicate AreRuns(disks: seq<Disk>, lives: seq<bool>, outcomes: seq<Outcome>, slotName: string) {
    && |disks| == |outcomes| + 1 && |lives| == |outcomes|
    && forall i | 0 <= i < |outcomes| :: IsOneRun(disks, lives, outcomes, slotName, i)
  }

  ghost predicate IsOneRun(disks: seq<Disk>, lives: seq<bool>, outcomes: seq<Outcome>, slotName: string, i: nat) {
    i < |outcomes| && i < |lives| && i + 1 < |disks|
    && RunOutcome(disks[i], disks[i + 1], lives[i], outcomes[i], slotName)
  }

  /** However often a migrate is cut and re-run, the credential is never lost, no
      named location ever holds other bytes, and the disk is either ready to resume
      or has arrived. */
  lemma {:induction false} NeverLost(disks: seq<Disk>, lives: seq<bool>, outcomes: seq<Outcome>, slotName: string,
                                     creds: Bytes, account: Option<Bytes>, n: nat)
    requires AreRuns(disks, lives, outcomes, slotName) && n < |disks|
    requires Resumable(disks[0], creds, account)
    ensures Resumable(disks[n], creds, account) || Arrived(disks[n], creds, account)
    ensures Intact(disks[n], Credentials, Some(creds)) && Intact(disks[n], Account, account)
  {
    if n > 0 {
      NeverLost(disks, lives, outcomes, slotName, creds, account, n - 1);
      assert IsOneRun(disks, lives, outcomes, slotName, n - 1);
      if Arrived(disks[n - 1], creds, account) {
        assert disks[n] == disks[n - 1];
      }
    }
  }

  /** Once arrived, every further run is refused and changes nothing. */
  lemma {:induction false} ArrivalIsFinal(disks: seq<Disk>, lives: seq<bool>, outcomes: seq<Outcome>, slotName: string, k: nat, n: nat)
    requires AreRuns(disks, lives, outcomes, slotName) && k <= n < |disks|
    requires disks[k].slot != Missing
    ensures disks[n] == disks[k]
    ensures k < n ==> outcomes[n - 1] == Refused
    decreases n
  {
    if k < n {
      ArrivalIsFinal(disks, lives, outcomes, slotName, k, n - 1);
      assert IsOneRun(disks, lives, outcomes, slotName, n - 1);
    }
  }

  /** While claude runs no migrate touches anything. */
  lemma {:induction false} LiveChangesNothing(disks: seq<Disk>, lives: seq<bool>, outcomes: seq<Outcome>, slotName: string, n: nat)
    requires AreRuns(disks, lives, outcomes, slotName) && n < |disks|
    requires forall i | 0 <= i < |lives| :: lives[i]
    ensures disks[n] == disks[0]
    ensures n > 0 ==> outcomes[n - 1] == Refused
  {
    if n > 0 {
      LiveChangesNothing(disks, lives, outcomes, slotName, n - 1);
      assert IsOneRun(disks, lives, outcomes, slotName, n - 1);
    }
  }

  /** Nor does any when there is no credential to move. */
  lemma {:induction false} NothingToMove(disks: seq<Disk>, lives: seq<bool>, outcomes: seq<Outcome>, slotName: string, n: nat)
    requires AreRuns(disks, lives, outcomes, slotName) && n < |disks|
    requires Credentials !in disks[0].home && Credentials !in EntriesOf(disks[0].staging)
    ensures disks[n] == disks[0]
    ensures n > 0 ==> outcomes[n - 1] == Refused
  {
    if n > 0 {
      NothingToMove(disks, lives, outcomes, slotName, n - 1);
      assert IsOneRun(disks, lives, outcomes, slotName, n - 1);
    }
  }

  /** A link that somebody put into staging for the credential passes for a moved file:
      with nothing at home the run is done and the slot has the link. */
  method StagedLinkArrives(slotName: string) returns (m: Machine, r: Outcome)
    ensures fresh(m) && r == Done && m.disk.slot.Folder?
    ensures NodeAt(m.disk.slot.entries, Credentials) == Some(Link(Elsewhere))
  {
    var staged: Entries := map[Credentials := Link(Elsewhere)];
    m := new Machine(Disk(map[], Folder(staged), Missing, map[]), MOST_STEPS, slotName);
    r := m.Run(false, Renames, Renames, 0);
  }
}
